# WindowCaster protocol core in Dafny

WindowCaster is a remote window render service. A client asks a Windows server to do one of three things:

- list the desktop's top-level windows;
- paint an image or video frame onto one of those windows;
- stop painting a window.

Every message in both directions is a protobuf payload. It travels in one frame: a 4-byte little-endian unsigned length, then that many bytes.

This project models the protocol core of both ends, and proves properties of the model:

- **Server transport** (`network_server.dfy`, module `ServerNet`). This is the `NetworkServer` object: a listening socket, a single client slot, and a message handler.
  - `Start` and `Stop` manage the sockets.
  - The listen thread cuts complete frames out of a `pending` byte buffer, as many as each `recv` brings. It hands every payload to the handler.
  - `SendMessage` writes the length prefix and then the body.
  - Frame reassembly is specified by `SplitFrames`, which cuts whole frames off the front of a buffer. The model proves that reassembly loses, duplicates and reorders nothing, and that how the stream is cut into `recv` chunks does not matter.
- **Server dispatcher** (`server_app.dfy`, module `ServerApp`). This is `WindowCasterServer`.
  - It parses a payload and routes the request to the window-list, render or stop handler.
  - It sends the serialised response back.
  - The window manager, the renderer and the protobuf codec are collaborators. Their answers for one request are parameters, and every renderer call is recorded.
- **Client connection** (`client_network.dfy`, module `ClientNetwork`). This is `NetworkClient`.
  - It builds and parses the server address, then connects.
  - `send_message` and `receive_message` run over a scripted TCP stream.
  - Lemmas connect the two ends. A frame either side writes whole is read back by the other as exactly that payload.
- **Client window list** (`client_window.dfy`, module `ClientWindow`, with `text.dfy`, module `Text`). This is the `WindowManager`.
  - It holds the window list and replaces it.
  - It finds the first window with a handle.
  - The `list` command filters titles without regard to case, then prints the lines. Handles are printed as `0x` plus upper-case hexadecimal, and the count in decimal.

`wire.dfy` (module `Wire`) holds the frame format both ends share. `wrappers.dfy` holds `Option`, `Result` and `Outcome`.

Collaborators are never called. The outcome of each Winsock call, each `write_all`, each `TcpStream::connect` and each address parse is a parameter. What `recv` returns is a scripted sequence. What the server will send over a client connection is a byte sequence.

Three points about the code that the model follows:

- The status messages are the code's Chinese string literals (for example `无效的窗口句柄`).
- For a video frame the dispatcher calls the renderer's `RenderVideoFrame` (Server/Server.cpp:128), which inside the renderer hands the frame on to `RenderImageFrame`. The renderer is not modelled, so the model records the call the dispatcher makes.
- The branch that closes a previous client when a new one is accepted (Server/network_server.cpp:114-117) never closes a live client. The listen thread serves each client to the end before it calls `accept` again, and lines 167-168 empty the client slot before the next `accept`. `ServerNet.NetworkServer.ListenThread` proves this: the sockets it closes are exactly the accepted ones, each once, at the end of its own session.

## Model

| member | source | states |
|---|---|---|
| Wire.Truncate32 | Server/network_server.cpp:179 | the 32-bit length keeps the size when it fits, and is congruent to it modulo 2^32 otherwise |
| Wire.LeBytes | Server/network_server.cpp:179-181 | the length prefix is exactly four bytes |
| Wire.Frame | Server/network_server.cpp:177-195 | a frame is four prefix bytes followed by exactly the payload |
| Wire.LeValueOfLeBytes | Server/network_server.cpp:179-181 | the four little-endian prefix bytes are read back as the length they encode |
| Wire.LeBytesOfLeValue | Server/network_server.cpp:136-137 | any four bytes are the encoding of the length read from them |
| Wire.FrameOfDeclared | Server/network_server.cpp:136-145 | re-prefixing the payload a buffer declares gives back the buffer's first frame |
| Wire.FrameHeader | client/src/network.rs:38-42 | a frame for a payload under 2^32 bytes declares the payload's length, and is followed by exactly the bytes after it |
| ServerNet.SplitFramesFirst | Server/network_server.cpp:129-148 | a frame is cut exactly when four prefix bytes and the declared payload are present; the first payload is the declared bytes after the prefix |
| ServerNet.SplitFramesConserves | Server/network_server.cpp:144-148 | the frames of the cut payloads, followed by what is left, are the buffer: nothing is lost, duplicated or reordered |
| ServerNet.SplitFramesFramable | Server/network_server.cpp:136-145 | every cut payload is shorter than 2^32 bytes |
| ServerNet.SplitFramesLeavesNoFrame | Server/network_server.cpp:129-142 | the loop stops only when what is left holds no complete frame |
| ServerNet.SplitFramesOfFrames | Server/network_server.cpp:129-154 | frames followed by an incomplete tail are cut into exactly their payloads, and the tail stays pending |
| ServerNet.SplitFramesAppend | Server/network_server.cpp:126-154 | appending bytes leaves the frames already complete untouched, and cuts new frames from the old rest plus the new bytes |
| ServerNet.ReassembleIsSplit | Server/network_server.cpp:122-154 | feeding the stream `recv` by `recv` dispatches the same payloads as cutting the whole stream at once |
| ServerNet.ChunkingInvariance | Server/network_server.cpp:123-154 | two chunkings of the same byte stream dispatch the same payloads in the same order |
| ServerNet.SplitDeliveryOfOneFrame | Server/network_server.cpp:123-154 | a frame split at any byte, inside the prefix included, is dispatched once and whole |
| ServerNet.WrappedGuardDiffers | Server/network_server.cpp:139 | the check as written, with 32-bit wrap-around, passes exactly when the intended one does, or when the declared length is 2^32-4 or more |
| ServerNet.WrappedGuardAdmitsShortBuffer | Server/network_server.cpp:139-145 | the 4-byte buffer declaring 0xFFFFFFFC passes the check as written, though its declared frame ends far past the buffer |
| ServerNet.NetworkServer.constructor | Server/network_server.cpp:5-10 | a new server keeps its port, is not running, and holds no sockets |
| ServerNet.NetworkServer.SetMessageHandler | Server/network_server.cpp:200-202 | a handler is installed |
| ServerNet.NetworkServer.Cleanup | Server/network_server.cpp:204-216 | both sockets are invalid afterwards, and a live client socket is closed |
| ServerNet.NetworkServer.Start | Server/network_server.cpp:25-74 | a running server reports success and changes nothing; otherwise it runs afterwards exactly when WSAStartup, socket, setsockopt, bind and listen all succeed; the listening socket is kept only on success, and after a failure past socket creation it is closed |
| ServerNet.NetworkServer.Stop | Server/network_server.cpp:76-94 | the server is not running, both sockets are invalid, and a live client socket is closed |
| ServerNet.NetworkServer.Accept | Server/network_server.cpp:106-119 | a failed accept changes nothing; otherwise a live client is closed first and the new socket takes the slot |
| ServerNet.NetworkServer.ReceiveChunk | Server/network_server.cpp:126-154 | after appending a chunk, the payloads handed to the handler and the bytes left pending are exactly the frames cut from the old pending bytes plus the chunk, and what is left of them |
| ServerNet.NetworkServer.EndConnection | Server/network_server.cpp:167-169 | the client is closed, the slot is cleared, and pending bytes are dropped |
| ServerNet.NetworkServer.ServeConnection | Server/network_server.cpp:122-165 | the handler receives exactly the frames of the bytes read before the first close or failed `recv`; the incomplete tail is what remains pending |
| ServerNet.NetworkServer.ListenThread | Server/network_server.cpp:96-171 | over any sequence of accepts, the handler receives every connection's payloads in order; each accepted socket is closed once, after its session, and no live client is ever evicted |
| ServerNet.Transmitted | Server/network_server.cpp:173-198 | what reaches the client is always a prefix of the message's frame; nothing goes out without a client or when the prefix send fails, and the whole frame goes out when both sends succeed |
| ServerNet.NetworkServer.SendMessage | Server/network_server.cpp:173-198 | without a client nothing is written; otherwise the prefix and then the body are written, each only if its send succeeds; success means both went out |
| ServerApp.Dispatch | Server/Server.cpp:59-73 | a window list answers exactly the window-list request; every other response is a status that failed exactly when it carries a reason; the renderer is called only for a valid target, with `Initialize` first and at most one further call |
| ServerApp.Reply | Server/Server.cpp:51-78 | a reply is sent only for a payload that parses, and it is the serialised response `Dispatch` gives for that request |
| ServerApp.CallsFor | Server/Server.cpp:51-78 | at most two renderer calls per payload, and any only for a parsed render or stop request on a valid window, the first being `Initialize` on its target |
| ServerApp.UnparsedPayloadIsDropped | Server/Server.cpp:52-56 | a payload that does not parse gets no reply and causes no renderer call |
| ServerApp.ParsedRequestIsAnswered | Server/Server.cpp:75-78 | a parsed request's reply is its serialised response |
| ServerApp.UnknownRequestFails | Server/Server.cpp:69-72 | an unset request kind fails with "未知请求类型" and calls nothing |
| ServerApp.InvalidHandleShortCircuits | Server/Server.cpp:36-41 | a render or stop for an invalid window fails with "无效的窗口句柄" before any renderer call |
| ServerApp.InitializeFailureStops | Server/Server.cpp:42-46 | when initialisation fails, only `Initialize` was called and the status is "初始化渲染器失败" |
| ServerApp.RenderReportsPaintResult | Server/Server.cpp:114-144 | an image goes to `RenderImageFrame` and a video frame to `RenderVideoFrame`; the status succeeds exactly when painting did, and says "渲染失败" exactly when it did not |
| ServerApp.UnknownContentPaintsNothing | Server/Server.cpp:135-138 | a render without content fails with "未知的渲染内容类型" after initialising, and paints nothing |
| ServerApp.StopRenderClears | Server/Server.cpp:148-159 | stopping a valid, initialised target clears it once and succeeds |
| ServerApp.CStringIsPrefix | Server/Server.cpp:91-93 | the text converted is the title up to its first NUL |
| ServerApp.Utf8WithTerminator | Server/Server.cpp:91-94 | the converted text is the UTF-8 of the title up to its first NUL, followed by the NUL the conversion counts in its size |
| ServerApp.ToWireWindow | Server/Server.cpp:86-100 | the entry keeps the window's handle, and its title and class name each end in a NUL |
| ServerApp.WindowListPassesThrough | Server/Server.cpp:82-101 | one entry per enumerated window, in order, with the handle unchanged and each text ending in the NUL the conversion keeps |
| ServerApp.WindowCasterServer.constructor | Server/Server.cpp:17-24 | a fresh, stopped network server on port 12345 with the handler installed, and no renderer calls yet |
| ServerApp.WindowCasterServer.Start | Server/Server.cpp:26-28 | a running network server reports success and changes nothing; otherwise success exactly when it runs afterwards, with no client, the closed clients unchanged, and the listening socket kept only on success |
| ServerApp.WindowCasterServer.Stop | Server/Server.cpp:30-32 | the network server is stopped, both its sockets are invalid, and a live client socket is closed |
| ServerApp.WindowCasterServer.ValidateAndInitialize | Server/Server.cpp:36-48 | succeeds exactly when the window is valid and the renderer initialises; `Initialize` is called only for a valid window; a failure sets the matching reason |
| ServerApp.WindowCasterServer.HandleGetWindowList | Server/Server.cpp:82-101 | the list has one entry per enumerated window, each its handle with its converted, NUL-terminated title and class name |
| ServerApp.WindowCasterServer.HandleRenderCommand | Server/Server.cpp:104-145 | the response and the renderer calls are those `Dispatch` specifies for a render request |
| ServerApp.WindowCasterServer.HandleStopRender | Server/Server.cpp:148-159 | the response and the renderer calls are those `Dispatch` specifies for a stop request |
| ServerApp.WindowCasterServer.HandleMessage | Server/Server.cpp:51-79 | renderer calls happen only for a parsed request; the serialised response is sent only when it serialises, framed as `SendMessage` writes it |
| Text.Numeral | client/src/window.rs:17 | the numeral has at least one digit, all digits of its radix, and starts with `0` only for zero |
| Text.NumeralValueOfNumeral | client/src/window.rs:17 | reading a numeral back gives the number |
| Text.AllDigitsEach | client/src/window.rs:17 | a string is all digits of the radix exactly when each of its characters is one |
| Text.NumeralValueInjective | client/src/window.rs:17 | two unpadded numerals with the same value are the same string |
| Text.NumeralOfNumeralValue | client/src/window.rs:66 | every unpadded numeral is written back exactly, so numerals and numbers correspond one to one |
| Text.AsciiLower | client/src/window.rs:54 | the result has no upper-case ASCII letter; upper-case letters move to lower case, and every other character is unchanged |
| Text.Lower | client/src/window.rs:54 | lower-casing keeps the length |
| Text.LowerIdempotent | client/src/window.rs:54 | lower-casing twice is lower-casing once |
| Text.Contains | client/src/window.rs:54 | true exactly when the pattern occurs in the text at some position |
| ClientWindow.HandleText | client/src/window.rs:17 | `0x`, then an unpadded upper-case hexadecimal numeral |
| ClientWindow.Display | client/src/window.rs:12-22 | the one-line rendering starts with the handle text and ends with the title |
| ClientWindow.DisplayVerbose | client/src/window.rs:25-32 | the verbose rendering starts with its handle label and ends with a newline |
| ClientWindow.DisplayShowsHandle | client/src/window.rs:12-22 | the one-line rendering starts with `0x`, and the window's handle reads back from the digits after it |
| ClientWindow.DisplayVerboseShowsHandle | client/src/window.rs:25-32 | the verbose rendering starts with its handle label and `0x`, and the handle reads back from the digits after it |
| ClientWindow.Matches | client/src/window.rs:52-58 | a window matches exactly when there is no filter, or the lower-cased filter occurs somewhere in the lower-cased title |
| ClientWindow.Select | client/src/window.rs:51-59 | no more windows are kept than are known |
| ClientWindow.SelectMembership | client/src/window.rs:51-59 | a window is kept exactly when it is known and the filter matches it |
| ClientWindow.SelectAppend | client/src/window.rs:51-59 | filtering a concatenation gives the filtered parts, concatenated: kept windows keep their order, and a window listed twice is kept twice |
| ClientWindow.SelectWithoutFilter | client/src/window.rs:53-57 | without a filter every window is kept, in order |
| ClientWindow.SelectWithEmptyFilter | client/src/window.rs:54 | an empty filter keeps every window, in order |
| ClientWindow.SelectIdempotent | client/src/window.rs:51-59 | filtering the kept windows again keeps them all |
| ClientWindow.FilterIgnoresCase | client/src/window.rs:54 | lower-casing the title or the filter does not change whether a window matches |
| ClientWindow.Find | client/src/window.rs:76-78 | none exactly when no window has the handle; otherwise the index of the first window with it |
| ClientWindow.Header | client/src/window.rs:66 | the header opens with "找到 " and ends with " 个窗口:" |
| ClientWindow.Line | client/src/window.rs:67-73 | a verbose line ends with the blank line after the entry; a one-line line starts with the handle text |
| ClientWindow.Listing | client/src/window.rs:61-73 | one line when nothing is kept, the no-match notice; otherwise one line per kept window after the header with their count |
| ClientWindow.HeaderShowsCount | client/src/window.rs:66 | the header is its fixed opening, an unpadded decimal numeral, then its fixed ending, and that numeral reads back as the count |
| ClientWindow.HeaderIsNotNoMatch | client/src/window.rs:61-66 | no header, whatever the count, is the no-match notice |
| ClientWindow.LinesSnoc | client/src/window.rs:67-73 | printing one more kept window adds exactly its rendering after the lines already printed |
| ClientWindow.ListingShape | client/src/window.rs:61-73 | the listing is the no-match notice alone exactly when nothing is kept; otherwise one line more than the kept windows, the header with their count first, then line i + 1 renders kept window i, verbose or one-line |
| ClientWindow.WindowManager.constructor | client/src/window.rs:40-44 | a new manager knows no windows |
| ClientWindow.WindowManager.UpdateWindows | client/src/window.rs:46-48 | the known windows are replaced by the new list |
| ClientWindow.WindowManager.FindWindow | client/src/window.rs:76-78 | none exactly when no known window has the handle; otherwise the first known window with it |
| ClientWindow.WindowManager.FilterWindows | client/src/window.rs:51-59 | the loop collects exactly `Select` of the known windows: those the filter matches, in their order |
| ClientWindow.WindowManager.ListWindows | client/src/window.rs:50-74 | the printed lines are the `Listing` of the windows `Select` keeps, whose shape `ListingShape` states |
| ClientNetwork.AddressText | client/src/network.rs:14-16 | the host, a colon, then the port in decimal, which reads back from the text |
| ClientNetwork.FrameRead | client/src/network.rs:51-67 | a read either fails at end of file, or consumes at least the 4-byte prefix and returns exactly the bytes it consumed after the prefix |
| ClientNetwork.Written | client/src/network.rs:38-42 | as many bytes reach the stream as the prefix write accepted, up to four, and once the prefix is whole, as many of the message as the body write accepted |
| ClientNetwork.WrittenWholeIsFrame | client/src/network.rs:35-44 | a message written whole is exactly its frame |
| ClientNetwork.WrittenIsPrefixOfFrame | client/src/network.rs:35-44 | whatever the writes accept is a prefix of the frame, and the whole frame exactly when both writes succeed |
| ClientNetwork.FrameReadOfFrame | client/src/network.rs:51-62 | reading a frame of a message under 2^32 bytes returns the message, and consumes exactly the frame |
| ClientNetwork.FrameReadConsumesFrame | client/src/network.rs:53-62 | the bytes a successful read consumed are the frame of the message it returned |
| ClientNetwork.FrameReadAgreesWithServer | client/src/network.rs:53-60 | the client reads a message exactly when the server's reassembly would see a complete frame in the same bytes, and it reads the same payload |
| ClientNetwork.ClientReadsServerReply | client/src/network.rs:51-62 | a reply the server sent whole is read back by the client as exactly that reply |
| ClientNetwork.ClientFailsOnTruncatedReply | client/src/network.rs:55-60 | when the server's body send failed for a non-empty reply, the client's read ends at end of file |
| ClientNetwork.ServerReceivesClientRequest | client/src/network.rs:35-44 | a request the client wrote whole reaches the server's handler as exactly that payload, and leaves nothing pending |
| ClientNetwork.TcpStream.constructor | client/src/network.rs:26-28 | a new stream has read nothing and written nothing |
| ClientNetwork.TcpStream.WriteAll | client/src/network.rs:39-42 | the accepted bytes are appended; the write succeeds exactly when all were accepted |
| ClientNetwork.TcpStream.ReadExact | client/src/network.rs:55-60 | the buffer is filled with the next bytes when enough remain; otherwise the rest of the stream is consumed and the read fails at end of file |
| ClientNetwork.NetworkClient.constructor | client/src/network.rs:18-21 | a new client keeps its address and is not connected |
| ClientNetwork.NetworkClient.New | client/src/network.rs:13-22 | fails with an invalid address exactly when `host:port` does not parse; otherwise an unconnected client for the parsed address |
| ClientNetwork.NetworkClient.Connect | client/src/network.rs:24-33 | a failed connect leaves the stream as it was; a successful one installs the new stream |
| ClientNetwork.NetworkClient.SendMessage | client/src/network.rs:35-49 | without a stream it fails as not connected; otherwise it writes the accepted part of the frame, reads nothing, and succeeds exactly when both writes complete |
| ClientNetwork.NetworkClient.ReceiveMessage | client/src/network.rs:51-67 | without a stream it fails as not connected; otherwise the result and the bytes consumed are those of `FrameRead` on what the stream still holds, and a failed read consumes the rest of the stream |

## Left out

- `WSACleanup` and the `closesocket` of the listening socket are not recorded. The outcome of `WSAStartup` is `Start`'s `wsaStarted` parameter, and closing a listening socket shows only as its slot becoming invalid. The listen loop is modelled by `ServerNet.NetworkServer.ListenThread`; the `std::thread` that runs it is left out. Each socket call is replaced by its outcome, a parameter. Closing a client socket is recorded in `closedClients`.
- Concurrency is left out. `Stop` called from another thread while `ListenThread` runs is not modelled. Inside `ServerNet.NetworkServer.ListenThread`, `running` stays true, and the accept script running out stands for the shutdown.
- `recv` reads at most 4096 bytes at a time. The model allows chunks of any length, which is more general.
- ServerNet.NetworkServer.SendMessage: each `send` either sends all of its bytes or fails. A short count that `send` reports as success is not modelled. Neither is the `static_cast<int>` of body sizes of 2^31 bytes or more.
- Protobuf encoding and decoding are not modelled. `ParseFromString` and `SerializeToString` are function parameters that may fail (`ServerApp.Codec`).
- The window manager's enumeration and validation are not modelled. Their answers for one request are parameters (`ServerApp.Oracle`).
- The GDI+ renderer is not modelled. Its answers are parameters, and its calls are recorded. The image bytes recorded are the payload's bytes; the source passes only a pointer to them.
- `WideCharToMultiByte` from UTF-16 to UTF-8 is a function parameter. Encodings are not modelled.
- Text.AsciiLower: Rust's `to_lowercase` folds all of Unicode, and it can change a string's length. The model folds ASCII letters only, so `ClientWindow.Matches` ignores the case of ASCII letters only.
- Terminal colours from `colored` (`green`, `blue`, `white`, `yellow`) are left out. Each `println!` is one string in the line sequence `ClientWindow.WindowManager.ListWindows` returns. The newline `println!` adds is not part of the line.
- ClientNetwork.TcpStream.ReadExact: the stream ends only with end of file. Other I/O errors, and the partly filled buffer `read_exact` leaves behind, are not modelled.
- Asynchronous execution (`tokio`) and logging (`tracing`) are left out. Parsing the text as a `SocketAddr` is a function parameter. The connected stream that `TcpStream::connect` yields, or its failure, is a parameter.
- The round-trip lemmas (`ClientNetwork.FrameReadOfFrame`, `ClientNetwork.ServerReceivesClientRequest`, `ClientNetwork.ClientReadsServerReply`) require payloads shorter than 2^32 bytes. Longer payloads get a truncated length prefix (`Wire.Truncate32`), which both ends compute faithfully.
- The server's `main`, the client's command line, interactive mode, video capture and UI are not part of this model.

## Findings

| source | as written | input that shows it | evidently intended | confidence | as-written member | corrected member |
|---|---|---|---|---|---|---|
| Server/network_server.cpp:139 | `4 + msgLen` is computed in 32-bit unsigned arithmetic, so it wraps for declared lengths of 2^32-4 and above, and the completeness check passes | a client sends the four bytes `FC FF FF FF`: the sum wraps to 0, the check passes, and line 145 copies 0xFFFFFFFC bytes from a 4-byte buffer | compare the buffer size with `4 + msgLen` without wrap-around (in `size_t`) | not executed | ServerNet.WrappedGuardAdmitsShortBuffer | ServerNet.NetworkServer.ReceiveChunk |
