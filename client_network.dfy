/**
 * The client's connection to the server: address parsing, connecting, and framed
 * send and receive over a TCP stream. The stream is scripted: it holds every byte the
 * server will send on this connection, and records every byte written to it.
 */
module ClientNetwork {
  import opened Wrappers
  import opened Wire
  import Text
  import ServerNet

  /** Why a client operation failed. */
  datatype Error = InvalidAddress | ConnectFailed | NotConnected | WriteFailed | UnexpectedEof

  /** A parsed socket address. */
  datatype SocketAddr = SocketAddr(ip: seq<int>, port: int)

  /** A port number (`u16`). */
  type Port = p: int | 0 <= p < 0x1_0000

  /** The text `format!("{}:{}", host, port)` builds before it is parsed as an address. */
  function AddressText(host: string, port: Port): (text: string)
    ensures |text| > |host| + 1 && text[..|host|] == host && text[|host|] == ':'
    ensures Text.IsNumeral(text[|host| + 1..], 10) && Text.NumeralValue(text[|host| + 1..], 10) == port
  {
    var text := host + ":" + Text.Numeral(port, 10);
    assert text[|host| + 1..] == Text.Numeral(port, 10);
    Text.NumeralValueOfNumeral(port, 10);
    text
  }

  // ---------------------------------------------------------------------------
  // Specification of the framed exchange
  // ---------------------------------------------------------------------------

  /** The bytes `send_message` puts on the wire when the two `write_all` calls accept so many bytes. */
  function Written(message: seq<Byte>, prefixAccepted: nat, bodyAccepted: nat): (w: seq<Byte>)
    ensures |w| == if prefixAccepted < 4 then prefixAccepted
                   else 4 + if bodyAccepted < |message| then bodyAccepted else |message|
  {
    var prefix := LeBytes(Truncate32(|message|));
    if prefixAccepted < |prefix| then prefix[..prefixAccepted]
    else if bodyAccepted < |message| then prefix + message[..bodyAccepted]
    else prefix + message
  }

  /** A message read from the stream, and how many bytes reading it consumed. */
  datatype Read = Read(message: seq<Byte>, consumed: nat)

  /**
   * What `receive_message` makes of the bytes still to come: the length prefix, then
   * exactly that many bytes; the stream ending first is an unexpected end of file.
   */
  function FrameRead(available: seq<Byte>): (r: Result<Read, Error>)
    ensures r.Failure? ==> r.error == UnexpectedEof
    ensures r.Success? ==> 4 <= r.value.consumed <= |available| && r.value.message == available[4..r.value.consumed]
  {
    if |available| < 4 then Failure(UnexpectedEof)
    else if |available| < 4 + DeclaredLength(available) then Failure(UnexpectedEof)
    else Success(Read(available[4..4 + DeclaredLength(available)], 4 + DeclaredLength(available)))
  }

  /** A message the client sends whole is one frame. */
  lemma WrittenWholeIsFrame(message: seq<Byte>, prefixAccepted: nat, bodyAccepted: nat)
    requires prefixAccepted >= 4 && bodyAccepted >= |message|
    ensures Written(message, prefixAccepted, bodyAccepted) == Frame(message)
  {
  }

  /** Whatever is accepted of a send, it is a prefix of the frame, the whole frame only on success. */
  lemma WrittenIsPrefixOfFrame(message: seq<Byte>, prefixAccepted: nat, bodyAccepted: nat)
    ensures var w := Written(message, prefixAccepted, bodyAccepted);
            |w| <= |Frame(message)| && w == Frame(message)[..|w|] &&
            (|w| == |Frame(message)| <==> prefixAccepted >= 4 && bodyAccepted >= |message|)
  {
    var prefix := LeBytes(Truncate32(|message|));
    var w := Written(message, prefixAccepted, bodyAccepted);
    if prefixAccepted < 4 {
      assert Frame(message)[..|w|] == prefix[..prefixAccepted];
    } else if bodyAccepted < |message| {
      assert Frame(message)[..|w|] == prefix + message[..bodyAccepted];
    }
  }

  /** Reading back a frame the peer wrote yields its payload and consumes exactly the frame. */
  lemma FrameReadOfFrame(message: seq<Byte>, rest: seq<Byte>)
    requires |message| < U32_MODULUS
    ensures FrameRead(Frame(message) + rest) == Success(Read(message, |Frame(message)|))
  {
    FrameHeader(message, rest);
  }

  /** A successful read consumed exactly the frame of the message it returned. */
  lemma FrameReadConsumesFrame(available: seq<Byte>)
    requires FrameRead(available).Success?
    ensures var rd := FrameRead(available).value;
            available[..rd.consumed] == Frame(rd.message)
  {
    FrameOfDeclared(available);
  }

  /**
   * The client reads a message exactly when the server's reassembler would see a complete
   * frame in the same bytes, and the message is the first payload it would deliver.
   */
  lemma FrameReadAgreesWithServer(available: seq<Byte>)
    ensures FrameRead(available).Success? <==> ServerNet.HasCompleteFrame(available)
    ensures FrameRead(available).Success? ==>
              FrameRead(available).value.message == ServerNet.SplitFrames(available).payloads[0]
  {
    ServerNet.SplitFramesFirst(available);
  }

  /** A reply the server sent whole is read back by the client. */
  lemma ClientReadsServerReply(reply: seq<Byte>, rest: seq<Byte>)
    requires |reply| < U32_MODULUS
    ensures FrameRead(ServerNet.Transmitted(true, reply, true, true) + rest) == Success(Read(reply, 4 + |reply|))
  {
    FrameReadOfFrame(reply, rest);
  }

  /** A reply whose body the server failed to send leaves the client at end of file. */
  lemma ClientFailsOnTruncatedReply(reply: seq<Byte>)
    requires 0 < |reply| < U32_MODULUS
    ensures FrameRead(ServerNet.Transmitted(true, reply, true, false)) == Failure(UnexpectedEof)
  {
    LeValueOfLeBytes(|reply|);
    assert LeBytes(|reply|)[..4] == LeBytes(|reply|);
  }

  /** A request the client sent whole reaches the server's handler as exactly that payload. */
  lemma ServerReceivesClientRequest(message: seq<Byte>)
    requires |message| < U32_MODULUS
    ensures ServerNet.SplitFrames(Written(message, 4, |message|)) == ServerNet.Split([message], [])
  {
    assert Frames([message]) + [] == Frame(message) by {
      assert Frames([message]) == Frame(message) + Frames([]);
    }
    ServerNet.SplitFramesOfFrames([message], []);
  }

  // ---------------------------------------------------------------------------
  // The stream and the client
  // ---------------------------------------------------------------------------

  /** An established TCP stream. */
  class TcpStream {
    /** Every byte the server sends on this connection, up to its end. */
    const incoming: seq<Byte>
    /** How many of the incoming bytes have been read. */
    var position: nat
    /** Every byte written to the stream. */
    var outgoing: seq<Byte>

    ghost predicate Valid()
      reads this
    {
      position <= |incoming|
    }

    constructor (incoming: seq<Byte>)
      ensures Valid() && this.incoming == incoming && position == 0 && outgoing == []
    {
      this.incoming := incoming;
      position := 0;
      outgoing := [];
    }

    /** `write_all`: the peer accepts `accepted` bytes; accepting fewer than all of them is an error. */
    method WriteAll(data: seq<Byte>, accepted: nat) returns (r: Outcome<Error>)
      modifies this`outgoing
      ensures r.Pass? <==> accepted >= |data|
      ensures r.Fail? ==> r.error == WriteFailed && outgoing == old(outgoing) + data[..accepted]
      ensures r.Pass? ==> outgoing == old(outgoing) + data
    {
      if accepted < |data| {
        outgoing := outgoing + data[..accepted];
        return Fail(WriteFailed);
      }
      outgoing := outgoing + data;
      return Pass;
    }

    /** `read_exact`: fill `buffer` from the stream, or consume what is left and report end of file. */
    method ReadExact(buffer: array<Byte>) returns (r: Outcome<Error>)
      requires Valid()
      modifies this`position, buffer
      ensures Valid()
      ensures old(position) + buffer.Length <= |incoming| ==>
                r.Pass? && position == old(position) + buffer.Length &&
                buffer[..] == incoming[old(position)..position]
      ensures old(position) + buffer.Length > |incoming| ==> r == Fail(UnexpectedEof) && position == |incoming|
    {
      if position + buffer.Length > |incoming| {
        position := |incoming|;
        return Fail(UnexpectedEof);
      }
      forall i | 0 <= i < buffer.Length {
        buffer[i] := incoming[position + i];
      }
      position := position + buffer.Length;
      return Pass;
    }
  }

  class NetworkClient {
    var stream: Option<TcpStream>
    const serverAddr: SocketAddr

    ghost predicate Valid()
      reads this, if stream.Some? then {stream.value} else {}
    {
      stream.Some? ==> stream.value.Valid()
    }

    constructor (serverAddr: SocketAddr)
      ensures Valid() && stream.None? && this.serverAddr == serverAddr
    {
      stream := None;
      this.serverAddr := serverAddr;
    }

    /** `new`: parse `host:port` as a socket address with `parse`; the client starts unconnected. */
    static method New(host: string, port: Port, parse: string -> Option<SocketAddr>) returns (r: Result<NetworkClient, Error>)
      ensures parse(AddressText(host, port)).None? <==> r.Failure?
      ensures r.Failure? ==> r.error == InvalidAddress
      ensures r.Success? ==>
                fresh(r.value) && r.value.Valid() && r.value.stream.None? &&
                r.value.serverAddr == parse(AddressText(host, port)).value
    {
      var addr := parse(AddressText(host, port));
      if addr.None? {
        return Failure(InvalidAddress);
      }
      var client := new NetworkClient(addr.value);
      return Success(client);
    }

    /** `connect`: `established` is the stream `TcpStream::connect` produced, or none when it failed. */
    method Connect(established: Option<TcpStream>) returns (r: Outcome<Error>)
      requires Valid()
      requires established.Some? ==> established.value.Valid()
      modifies this`stream
      ensures Valid()
      ensures established.None? ==> r == Fail(ConnectFailed) && stream == old(stream)
      ensures established.Some? ==> r.Pass? && stream == established
    {
      if established.None? {
        return Fail(ConnectFailed);
      }
      stream := established;
      return Pass;
    }

    /**
     * `send_message`: the truncated length in little-endian order, then the message; the
     * accepted counts are what the two `write_all` calls get through.
     */
    method SendMessage(message: seq<Byte>, prefixAccepted: nat, bodyAccepted: nat) returns (r: Outcome<Error>)
      modifies if stream.Some? then {stream.value} else {}
      ensures stream.None? ==> r == Fail(NotConnected)
      ensures stream.Some? ==>
                (r.Pass? <==> prefixAccepted >= 4 && bodyAccepted >= |message|) &&
                (r.Fail? ==> r.error == WriteFailed) &&
                stream.value.outgoing == old(stream.value.outgoing) + Written(message, prefixAccepted, bodyAccepted) &&
                stream.value.position == old(stream.value.position)
    {
      if stream.None? {
        return Fail(NotConnected);
      }
      var s := stream.value;
      ghost var before := s.outgoing;
      var prefix := LeBytes(Truncate32(|message|));
      r := s.WriteAll(prefix, prefixAccepted);
      if r.Fail? {
        return;
      }
      assert s.outgoing == before + prefix;
      r := s.WriteAll(message, bodyAccepted);
      if r.Fail? {
        assert Written(message, prefixAccepted, bodyAccepted) == prefix + message[..bodyAccepted];
        ConcatAssociates(before, prefix, message[..bodyAccepted]);
      } else {
        assert Written(message, prefixAccepted, bodyAccepted) == prefix + message;
        ConcatAssociates(before, prefix, message);
      }
    }

    /**
     * `receive_message`: read the 4-byte little-endian length, then that many bytes. The
     * result and the bytes consumed are those of `FrameRead` on what the stream still holds.
     */
    method ReceiveMessage() returns (r: Result<seq<Byte>, Error>)
      requires Valid()
      modifies if stream.Some? then {stream.value} else {}
      ensures Valid()
      ensures stream.None? ==> r == Failure(NotConnected)
      ensures stream.Some? ==>
                var s := stream.value;
                s.outgoing == old(s.outgoing) &&
                match FrameRead(s.incoming[old(s.position)..])
                case Success(rd) => r == Success(rd.message) && s.position == old(s.position) + rd.consumed
                case Failure(e) => r == Failure(e) && s.position == |s.incoming|
    {
      if stream.None? {
        return Failure(NotConnected);
      }
      var s := stream.value;
      ghost var available := s.incoming[s.position..];
      var lengthBytes := new Byte[4](i => 0);
      var outcome := s.ReadExact(lengthBytes);
      if outcome.Fail? {
        return Failure(outcome.error);
      }
      assert lengthBytes[..] == available[..4];
      var length := LeValue(lengthBytes[..]);
      var buffer := new Byte[length](i => 0);
      outcome := s.ReadExact(buffer);
      if outcome.Fail? {
        return Failure(outcome.error);
      }
      assert buffer[..] == available[4..4 + length];
      return Success(buffer[..]);
    }
  }
}
