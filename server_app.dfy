/**
 * The request dispatcher of the server application: decode a frame payload as a
 * request, route it to its handler, and send the serialised response back.
 * The window manager, the renderer and the protobuf codec are oracles: their
 * answers for one request are supplied by the caller, and every renderer call is logged.
 */
module ServerApp {
  import opened Wrappers
  import opened Wire
  import ServerNet

  /** A window handle carried over the wire as a 64-bit integer and never interpreted. */
  type Handle = U64

  /** The `content` oneof of a render command; `ContentNotSet` when neither case is set. */
  datatype Content =
    | Image(data: seq<Byte>, width: U32, height: U32)
    | Video(frameData: seq<Byte>, width: U32, height: U32)
    | ContentNotSet

  /** The `request` oneof of a client request; `RequestNotSet` covers an unset or unknown case. */
  datatype Request =
    | GetWindowList
    | RenderCommand(target: Handle, content: Content)
    | StopRender(target: Handle)
    | RequestNotSet

  /** One entry of the window list on the wire. */
  datatype WindowInfo = WindowInfo(handle: Handle, title: string, className: string)

  /** The status message; `message` is empty when the handler never set it. */
  datatype Status = Status(success: bool, message: string)

  /** The `response` oneof of a server response: the handlers always set exactly one case. */
  datatype Response = WindowList(windows: seq<WindowInfo>) | StatusResponse(status: Status)

  /** A window as the window manager enumerates it, with UTF-16 title and class name. */
  datatype DesktopWindow = DesktopWindow(handle: Handle, title: string, className: string)

  /** A call into the renderer. */
  datatype RendererCall =
    | Initialize(target: Handle)
    | RenderImageFrame(data: seq<Byte>, width: U32, height: U32)
    | RenderVideoFrame(frameData: seq<Byte>, width: U32, height: U32)
    | Clear

  /**
   * The collaborators' answers while one request is handled: what `EnumerateWindows`
   * returns, whether `IsWindowValid`, `Initialize` and the paint call succeed, and the
   * UTF-16 to UTF-8 conversion.
   */
  datatype Oracle = Oracle(
    windows: seq<DesktopWindow>,
    windowValid: bool,
    initializeOk: bool,
    renderOk: bool,
    toUtf8: string -> string)

  /** The protobuf codec: parsing may fail, and so may serialising. */
  datatype Codec = Codec(parse: seq<Byte> -> Option<Request>, serialize: Response -> Option<seq<Byte>>)

  const InvalidHandleMessage: string := "无效的窗口句柄"
  const InitializeFailedMessage: string := "初始化渲染器失败"
  const UnknownRequestMessage: string := "未知请求类型"
  const UnknownContentMessage: string := "未知的渲染内容类型"
  const RenderFailedMessage: string := "渲染失败"

  // ---------------------------------------------------------------------------
  // Specification of the handlers
  // ---------------------------------------------------------------------------

  /** The prefix of `s` before its first NUL: what a C string pointer sees. */
  function CString(s: string): string
  {
    if s == [] || s[0] == '\0' then [] else [s[0]] + CString(s[1..])
  }

  /**
   * `WideCharToMultiByte` with length -1 into a buffer of the size it reports: the
   * converted text followed by the terminator, which stays in the string.
   */
  function Utf8WithTerminator(s: string, toUtf8: string -> string): (t: string)
    ensures |t| >= 1 && t[|t| - 1] == '\0' && t[..|t| - 1] == toUtf8(CString(s))
  {
    toUtf8(CString(s)) + ['\0']
  }

  /** One enumerated window as a wire entry. */
  function ToWireWindow(w: DesktopWindow, toUtf8: string -> string): (r: WindowInfo)
    ensures r.handle == w.handle
    ensures |r.title| >= 1 && r.title[|r.title| - 1] == '\0'
    ensures |r.className| >= 1 && r.className[|r.className| - 1] == '\0'
  {
    WindowInfo(w.handle, Utf8WithTerminator(w.title, toUtf8), Utf8WithTerminator(w.className, toUtf8))
  }

  /** The response and the renderer calls one handled request produces. */
  datatype Handled = Handled(response: Response, calls: seq<RendererCall>)

  /** The status a validated render reports for a paint result. */
  function RenderStatus(painted: bool): Status
  {
    if painted then Status(true, "") else Status(false, RenderFailedMessage)
  }

  /**
   * What handling `request` yields, given the collaborators' answers: a window list exactly
   * for a window-list request, otherwise a status that failed exactly when it carries a
   * reason; the renderer is touched only for a valid target, and `Initialize` comes first.
   */
  function Dispatch(request: Request, o: Oracle): (h: Handled)
    ensures h.response.WindowList? <==> request.GetWindowList?
    ensures h.response.StatusResponse? ==> (!h.response.status.success <==> h.response.status.message != "")
    ensures h.calls != [] <==> (request.RenderCommand? || request.StopRender?) && o.windowValid
    ensures h.calls != [] ==> h.calls[0] == Initialize(request.target) && |h.calls| <= 2
    ensures |h.calls| == 2 <==> (request.RenderCommand? || request.StopRender?) && o.windowValid && o.initializeOk &&
                                !(request.RenderCommand? && request.content.ContentNotSet?)
  {
    match request
    case GetWindowList =>
      Handled(WindowList(seq(|o.windows|, i requires 0 <= i < |o.windows| => ToWireWindow(o.windows[i], o.toUtf8))), [])
    case RenderCommand(target, content) =>
      if !o.windowValid then Handled(StatusResponse(Status(false, InvalidHandleMessage)), [])
      else if !o.initializeOk then Handled(StatusResponse(Status(false, InitializeFailedMessage)), [Initialize(target)])
      else (
        match content
        case Image(data, width, height) =>
          Handled(StatusResponse(RenderStatus(o.renderOk)), [Initialize(target), RenderImageFrame(data, width, height)])
        case Video(frameData, width, height) =>
          Handled(StatusResponse(RenderStatus(o.renderOk)), [Initialize(target), RenderVideoFrame(frameData, width, height)])
        case ContentNotSet =>
          Handled(StatusResponse(Status(false, UnknownContentMessage)), [Initialize(target)]))
    case StopRender(target) =>
      if !o.windowValid then Handled(StatusResponse(Status(false, InvalidHandleMessage)), [])
      else if !o.initializeOk then Handled(StatusResponse(Status(false, InitializeFailedMessage)), [Initialize(target)])
      else Handled(StatusResponse(Status(true, "")), [Initialize(target), Clear])
    case RequestNotSet =>
      Handled(StatusResponse(Status(false, UnknownRequestMessage)), [])
  }

  /** The reply owed for a payload: none when it does not parse or its response does not serialise. */
  function Reply(message: seq<Byte>, codec: Codec, o: Oracle): (r: Option<seq<Byte>>)
    ensures r.Some? ==> codec.parse(message).Some? &&
                        codec.serialize(Dispatch(codec.parse(message).value, o).response) == r
  {
    match codec.parse(message)
    case None => None
    case Some(request) => codec.serialize(Dispatch(request, o).response)
  }

  /** The renderer calls handling a payload makes: none when it does not parse. */
  function CallsFor(message: seq<Byte>, codec: Codec, o: Oracle): (c: seq<RendererCall>)
    ensures |c| <= 2
    ensures c != [] ==> codec.parse(message).Some? && o.windowValid &&
                        (codec.parse(message).value.RenderCommand? || codec.parse(message).value.StopRender?) &&
                        c[0] == Initialize(codec.parse(message).value.target)
  {
    match codec.parse(message)
    case None => []
    case Some(request) => Dispatch(request, o).calls
  }

  // ---------------------------------------------------------------------------
  // Properties of the handlers
  // ---------------------------------------------------------------------------

  /** A payload that fails to parse gets no reply and causes no renderer call. */
  lemma UnparsedPayloadIsDropped(message: seq<Byte>, codec: Codec, o: Oracle)
    requires codec.parse(message).None?
    ensures Reply(message, codec, o).None? && CallsFor(message, codec, o) == []
  {
  }

  /** A parsed request gets exactly one reply, the serialised response, whenever serialisation succeeds. */
  lemma ParsedRequestIsAnswered(message: seq<Byte>, codec: Codec, o: Oracle)
    requires codec.parse(message).Some?
    ensures var response := Dispatch(codec.parse(message).value, o).response;
            Reply(message, codec, o) == codec.serialize(response)
  {
  }

  /** A request of no known kind yields a failure status and touches nothing. */
  lemma UnknownRequestFails(o: Oracle)
    ensures Dispatch(RequestNotSet, o) == Handled(StatusResponse(Status(false, UnknownRequestMessage)), [])
  {
  }

  /** A render or stop request for an invalid handle fails before any renderer call. */
  lemma InvalidHandleShortCircuits(request: Request, o: Oracle)
    requires request.RenderCommand? || request.StopRender?
    requires !o.windowValid
    ensures Dispatch(request, o).calls == []
    ensures Dispatch(request, o).response == StatusResponse(Status(false, InvalidHandleMessage))
  {
  }

  /** When the renderer fails to initialise, only `Initialize` was called and the status says so. */
  lemma InitializeFailureStops(request: Request, o: Oracle)
    requires request.RenderCommand? || request.StopRender?
    requires o.windowValid && !o.initializeOk
    ensures Dispatch(request, o).calls == [Initialize(request.target)]
    ensures Dispatch(request, o).response == StatusResponse(Status(false, InitializeFailedMessage))
  {
  }

  /**
   * A validated render reports the paint result: images go to `RenderImageFrame`, video to
   * `RenderVideoFrame`, and "render failed" is set exactly when painting failed.
   */
  lemma RenderReportsPaintResult(target: Handle, content: Content, o: Oracle)
    requires o.windowValid && o.initializeOk && !content.ContentNotSet?
    ensures var h := Dispatch(RenderCommand(target, content), o);
            h.response.StatusResponse? && h.response.status.success == o.renderOk &&
            (h.response.status.message == RenderFailedMessage <==> !o.renderOk) &&
            |h.calls| == 2 && h.calls[0] == Initialize(target) &&
            h.calls[1] == (if content.Image? then RenderImageFrame(content.data, content.width, content.height)
                           else RenderVideoFrame(content.frameData, content.width, content.height))
  {
  }

  /** A render with no content fails after initialising and paints nothing. */
  lemma UnknownContentPaintsNothing(target: Handle, o: Oracle)
    requires o.windowValid && o.initializeOk
    ensures Dispatch(RenderCommand(target, ContentNotSet), o) ==
              Handled(StatusResponse(Status(false, UnknownContentMessage)), [Initialize(target)])
  {
  }

  /** Stopping a valid, initialised target clears it once and succeeds. */
  lemma StopRenderClears(target: Handle, o: Oracle)
    requires o.windowValid && o.initializeOk
    ensures Dispatch(StopRender(target), o) == Handled(StatusResponse(Status(true, "")), [Initialize(target), Clear])
  {
  }

  /** A C string never contains a NUL, and it is a prefix of the text it was taken from. */
  lemma {:induction false} CStringIsPrefix(s: string)
    ensures '\0' !in CString(s)
    ensures |CString(s)| <= |s| && CString(s) == s[..|CString(s)|]
    ensures |CString(s)| < |s| ==> s[|CString(s)|] == '\0'
  {
    if s != [] && s[0] != '\0' {
      CStringIsPrefix(s[1..]);
    }
  }

  /**
   * The window list has one entry per enumerated window, in enumeration order, with the
   * handle passed through unchanged and each text terminated by the NUL the conversion keeps.
   */
  lemma WindowListPassesThrough(o: Oracle)
    ensures var h := Dispatch(GetWindowList, o);
            h.calls == [] && h.response.WindowList? && |h.response.windows| == |o.windows| &&
            forall i :: 0 <= i < |o.windows| ==>
              h.response.windows[i].handle == o.windows[i].handle &&
              h.response.windows[i].title[|h.response.windows[i].title| - 1] == '\0' &&
              h.response.windows[i].className[|h.response.windows[i].className| - 1] == '\0'
  {
  }

  // ---------------------------------------------------------------------------
  // The server application object
  // ---------------------------------------------------------------------------

  class WindowCasterServer {
    const server: ServerNet.NetworkServer
    /** The calls made into the renderer, in order. */
    var rendererCalls: seq<RendererCall>

    constructor ()
      ensures fresh(server) && server.Valid() && server.port == 12345 && server.hasHandler && !server.running
      ensures server.written == [] && server.clientSocket == ServerNet.InvalidSocket
      ensures rendererCalls == []
    {
      server := new ServerNet.NetworkServer(12345);
      rendererCalls := [];
      new;
      server.SetMessageHandler();
    }

    /**
     * Start the network server; the arguments are the outcomes of its socket calls. The
     * server runs afterwards exactly when this reports success.
     */
    method Start(wsaStarted: bool, created: ServerNet.Socket, optionsSet: bool, bound: bool, listening: bool) returns (ok: bool)
      requires server.Valid()
      modifies server`running, server`serverSocket, server`clientSocket, server`closedClients
      ensures server.Valid() && (ok <==> server.running)
      ensures old(server.running) ==> ok && unchanged(server)
      ensures !old(server.running) ==>
                (ok <==> wsaStarted && created != ServerNet.InvalidSocket && optionsSet && bound && listening)
      ensures !old(server.running) ==>
                server.clientSocket == ServerNet.InvalidSocket && server.closedClients == old(server.closedClients)
      ensures !old(server.running) ==>
                server.serverSocket == (if wsaStarted && (ok || created == ServerNet.InvalidSocket) then created
                                        else if wsaStarted then ServerNet.InvalidSocket
                                        else old(server.serverSocket))
    {
      ok := server.Start(wsaStarted, created, optionsSet, bound, listening);
    }

    /** Stop the network server, closing its sockets. */
    method Stop()
      modifies server`running, server`serverSocket, server`clientSocket, server`closedClients
      ensures server.Valid() && !server.running
      ensures server.serverSocket == ServerNet.InvalidSocket && server.clientSocket == ServerNet.InvalidSocket
      ensures server.closedClients ==
                old(server.closedClients) +
                (if old(server.clientSocket) == ServerNet.InvalidSocket then [] else [old(server.clientSocket)])
    {
      server.Stop();
    }

    /** Check the target window, then initialise the renderer on it; on failure say why in `status`. */
    method ValidateAndInitialize(hwnd: Handle, status: Status, o: Oracle) returns (ok: bool, status': Status)
      modifies this`rendererCalls
      ensures ok <==> o.windowValid && o.initializeOk
      ensures rendererCalls == old(rendererCalls) + (if o.windowValid then [Initialize(hwnd)] else [])
      ensures status' == (if !o.windowValid then Status(false, InvalidHandleMessage)
                          else if !o.initializeOk then Status(false, InitializeFailedMessage)
                          else status)
    {
      if !o.windowValid {
        return false, Status(false, InvalidHandleMessage);
      }
      rendererCalls := rendererCalls + [Initialize(hwnd)];
      if !o.initializeOk {
        return false, Status(false, InitializeFailedMessage);
      }
      return true, status;
    }

    /**
     * Build the window list from the enumerated windows, one entry at a time, with the
     * handle passed through and the texts converted with their terminator.
     */
    method HandleGetWindowList(o: Oracle) returns (response: Response)
      ensures response.WindowList? && |response.windows| == |o.windows|
      ensures forall i :: 0 <= i < |o.windows| ==> response.windows[i] == ToWireWindow(o.windows[i], o.toUtf8)
    {
      var windows := o.windows;
      var list: seq<WindowInfo> := [];
      for k := 0 to |windows|
        invariant |list| == k
        invariant forall i :: 0 <= i < k ==> list[i] == ToWireWindow(windows[i], o.toUtf8)
      {
        var window := windows[k];
        var title := Utf8WithTerminator(window.title, o.toUtf8);
        var className := Utf8WithTerminator(window.className, o.toUtf8);
        list := list + [WindowInfo(window.handle, title, className)];
      }
      response := WindowList(list);
    }

    /** Validate and initialise, then paint the image or the video frame and report the result. */
    method HandleRenderCommand(target: Handle, content: Content, o: Oracle) returns (response: Response)
      modifies this`rendererCalls
      ensures response == Dispatch(RenderCommand(target, content), o).response
      ensures rendererCalls == old(rendererCalls) + Dispatch(RenderCommand(target, content), o).calls
    {
      var status := Status(false, "");
      var ok;
      ok, status := ValidateAndInitialize(target, status, o);
      if !ok {
        return StatusResponse(status);
      }
      var success := false;
      match content {
        case Image(data, width, height) =>
          rendererCalls := rendererCalls + [RenderImageFrame(data, width, height)];
          success := o.renderOk;
        case Video(frameData, width, height) =>
          rendererCalls := rendererCalls + [RenderVideoFrame(frameData, width, height)];
          success := o.renderOk;
        case ContentNotSet =>
          return StatusResponse(Status(false, UnknownContentMessage));
      }
      status := status.(success := success);
      if !success {
        status := status.(message := RenderFailedMessage);
      }
      return StatusResponse(status);
    }

    /** Validate and initialise, then clear the target and report success. */
    method HandleStopRender(target: Handle, o: Oracle) returns (response: Response)
      modifies this`rendererCalls
      ensures response == Dispatch(StopRender(target), o).response
      ensures rendererCalls == old(rendererCalls) + Dispatch(StopRender(target), o).calls
    {
      var status := Status(false, "");
      var ok;
      ok, status := ValidateAndInitialize(target, status, o);
      if !ok {
        return StatusResponse(status);
      }
      rendererCalls := rendererCalls + [Clear];
      status := status.(success := true);
      return StatusResponse(status);
    }

    /**
     * Handle one frame payload: parse it (dropping it silently if that fails), route the
     * request, and send the serialised response if serialisation succeeds. `prefixSent`
     * and `bodySent` are the outcomes of the two `send` calls.
     */
    method HandleMessage(message: seq<Byte>, codec: Codec, o: Oracle, prefixSent: bool, bodySent: bool)
      modifies this`rendererCalls, server`written
      ensures rendererCalls == old(rendererCalls) + CallsFor(message, codec, o)
      ensures server.written == old(server.written) +
                (match Reply(message, codec, o)
                 case None => []
                 case Some(reply) => ServerNet.Transmitted(server.clientSocket != ServerNet.InvalidSocket, reply, prefixSent, bodySent))
    {
      var parsed := codec.parse(message);
      if parsed.None? {
        // parse failure: logged, no reply
        return;
      }
      var request := parsed.value;
      var response: Response;
      match request {
        case GetWindowList =>
          response := HandleGetWindowList(o);
          assert response == Dispatch(request, o).response;
        case RenderCommand(target, content) =>
          response := HandleRenderCommand(target, content, o);
        case StopRender(target) =>
          response := HandleStopRender(target, o);
        case RequestNotSet =>
          response := StatusResponse(Status(false, UnknownRequestMessage));
      }
      var serialized := codec.serialize(response);
      if serialized.Some? {
        var _ := server.SendMessage(serialized.value, prefixSent, bodySent);
      }
    }
  }
}
