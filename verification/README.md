# ScorpionServer core in Dafny

ScorpionServer is a TCP command server for a Xaar printhead controller. A
client sends JSON-RPC requests, each ending with a newline. The server
answers each with one JSON line. The request carries a `method` and an
`id`. The reply carries the same `id`, a `result`, and a `log_msgs` array.
This project models the four parts of that server that hold its logic, as
pure functions over immutable datatypes, and proves properties of them.

The modules follow the C++ sources:

- `Text` (text.dfy) holds the string helpers the server uses:
  - substring search (`std::string::find`);
  - the erase/remove idiom;
  - `std::getline` splitting;
  - C-string truncation at the first NUL;
  - decimal rendering.
- `Outcomes` and `Json` (json.dfy) hold the option and exception wrappers,
  and a cJSON tree whose objects keep their members in order and may
  repeat keys.
- `CntJson` (cnt_json.dfy) models the CNT_JSON helpers. These are:
  - the typed getters and setters;
  - `doesAttributeExist`, `getID`, and the RPC object builders;
  - `JSONToMap_Str_Double`;
  - the throwing accessors;
  - the 32-bit string hash.
- `LinuxSocket` (linux_socket.dfy) models the socket state machine:
  - `init`, `ListenForClient`, `ResetConnection`/`reconnect`,
    `CloseConnection` and `sendData`;
  - `readBlock`;
  - `readLine`. This is both a function over the sequence of events the
    socket delivers and a loop method proved equal to it.
- `Framing` (framing.dfy) models the newline framing of the receive
  stream, and the numbering of callback invocations.
- `SocketTransport` (socket_transport.dfy) covers the transport:
  - one pass of `update_rx` over each connection state;
  - runs of many passes;
  - `init`, `StartComm` and `StopComm`.
- `Registry` (registry.dfy) models the `setRegistrySetting` handler over an
  abstract registry document.
- `CommandProcessor` (command_processor.dfy) covers the request side:
  - the command FIFO filled by the receive callback;
  - `ProcessCommands`: quit detection, parse and error replies, handler
    routing, reply framing;
  - `getBuildStats`, `Init`, `Start` and `Shutdown`.

The program's inputs from the outside world are parameters of the model.
These include:

- what `recv`/`accept`/`connect` return;
- whether a thread could be spawned or a send succeeded;
- the JSON parser and printer;
- the printhead API;
- the loaded registry document.

On several inputs the C++ code has undefined behaviour: it dereferences a
NULL or indexes past a vector. The model gives these an explicit
outcome (`Undefined`, `ParamsUndefined`, `RegUndefined`) instead of
choosing a result.

`update_rx` never clears `m_CmdBuffer` (SocketTransport.cpp:341-349), not
even when a connection is reset. So the unterminated tail of a dropped
session is kept, and becomes the front of the next session's first frame
(`SocketTransport.StaleTailPrefixesNextFrame` for the buffer alone,
`SocketTransport.TickStates` for the reset that keeps it, and
`SocketTransport.ResetKeepsTail` for the two passes together).

## Model

| member | source | states |
|---|---|---|
| Text.ContainsIff | src/CommandProcessor.cpp:179 | `find(x) != npos` holds exactly when `x` occurs at some index of the string |
| Text.Contains | src/CommandProcessor.cpp:178-215 | the substring test used for `quit` and for routing; its meaning is given by `Text.ContainsIff` |
| Text.Remove | src/CommandProcessor.cpp:308-310 | erasing a character set leaves none of those characters, keeps only characters of the input, and never lengthens it |
| Text.RemoveIdentity | src/CommandProcessor.cpp:308-310 | erasing changes a string exactly when it contains one of the characters |
| Text.RemoveIdempotent | src/CommandProcessor.cpp:308-310 | erasing twice is erasing once |
| Text.EraseThreeIsRemove | src/CommandProcessor.cpp:308-310 | the three single-character erase passes equal one erase of the three-character set |
| Text.UpToNul | src/SocketTransport.cpp:341 | appending a C buffer takes the bytes before the first NUL: a prefix with no NUL, ending at a NUL or at the end |
| Text.SplitOnJoin | src/CommandProcessor.cpp:338-343 | cutting at a delimiter and re-joining with it gives back the original string |
| Text.SplitOnOfJoin | src/CommandProcessor.cpp:338-343 | cutting delimiter-free pieces glued with the delimiter gives back exactly those pieces |
| Text.GetlineSplitSpec | src/CommandProcessor.cpp:338-343 | `getline` splitting yields the delimiter-cut pieces, less a final empty piece |
| Text.GetlineSplit | src/CommandProcessor.cpp:338-343 | the pieces `while (getline(ss, item, d))` produces; its meaning is given by `Text.GetlineSplitSpec` and `Text.GetlineSplitOfJoin` |
| Text.GetlineSplitOfJoin | src/CommandProcessor.cpp:338-343 | `getline` on delimiter-free pieces glued with the delimiter, the last one non-empty, yields exactly those pieces |
| Text.LastPieceEmpty | src/CommandProcessor.cpp:449-456 | of delimiter-free pieces glued with the delimiter, the last is empty exactly when the text is empty or ends with the delimiter, which is when `getline` produces no trailing piece |
| Text.Decimal | src/CommandProcessor.cpp:374-381 | `stream << value` renders an integer as non-empty decimal text; `Text.DecimalRoundTrip` gives its meaning |
| Text.DecimalRoundTrip | src/CommandProcessor.cpp:374-381 | the decimal text has a minus sign exactly for negative values, digits otherwise, has no leading zero except in `0` itself (so the text is fixed exactly, not only its value), and reads back as the value |
| Json.StringArray | src/CommandProcessor.cpp:176 | the `log_msgs` array holds each log line, in order, as a string item |
| Json.Children | src/CommandProcessor.cpp:40-48 | the child walk sees the items of an array, the children's values of an object, and nothing for a scalar |
| CntJson.FindKey | src/CNT_JSON.c:335-354 | the index found is the first child with that key, or the length when no child has it (the lookup `cJSON_GetObjectItem` and replace-by-name make) |
| CntJson.FindTyped | src/CNT_JSON.c:182-214 | the index found is the first child with that key and type, or the length when no child has both |
| CntJson.Lookup | src/CNT_JSON.c:182-214 | a typed lookup succeeds exactly when some child has the key and the type; it returns the first such child |
| CntJson.GetInt | src/CNT_JSON.c:182-214 | `getAttributeValue_Int` succeeds exactly when a number child has the key, and yields the first such child's `valueint` |
| CntJson.GetDouble | src/CNT_JSON.c:414-445 | `getAttributeValue_Double` succeeds exactly when a number child has the key, and yields its `valuedouble` |
| CntJson.GetString | src/CNT_JSON.c:493-525 | `getAttributeValue_String` succeeds exactly when a string child has the key, and yields its text |
| CntJson.GetBool | src/CNT_JSON.c:317-355 | the boolean getter looks only at the first child with the key: it succeeds exactly when that child is `true`/`false`, and yields which |
| CntJson.GetBoolStopsAtFirstKey | src/CNT_JSON.c:317-355 | a non-boolean first child with the key hides any later boolean with that key |
| CntJson.GetIntSkipsOtherTypes | src/CNT_JSON.c:182-214 | the integer getter skips children of other types and finds a later number with the same key |
| CntJson.FindKeyBeforeTyped | src/CNT_JSON.c:150-214 | the first child with a key comes no later than the first child with that key and a given type |
| CntJson.GetIntOr | src/CNT_JSON.c:260-268 | yields the stored integer when there is one, else the supplied default |
| CntJson.GetId | src/CNT_JSON.c:50-62 | yields the first numeric `id`, or -9999 when there is none |
| CntJson.Exists | src/CNT_JSON.c:150-180 | `doesAttributeExist` over a container's children, descending into containers when recursing; its meaning is given by the existence lemmas that follow |
| CntJson.ExistsDirect | src/CNT_JSON.c:150-180 | a non-recursive existence test on an object holds exactly when a direct child has the (non-empty) key |
| CntJson.ExistsFlatImpliesDeep | src/CNT_JSON.c:150-180 | whatever exists without recursion also exists with recursion |
| CntJson.ExistsThroughChild | src/CNT_JSON.c:150-180 | a container child whose recursive search hits makes its parent's recursive search hit |
| CntJson.ExistsIffPath | src/CNT_JSON.c:150-180 | the recursive search hits exactly when some path of arrays and objects, of any depth, leads to an object with a direct child carrying the key |
| CntJson.UniqueKeysReplaceHits | src/CNT_JSON.c:284-292 | with unique keys, replace-by-key hits the child the typed search found |
| CntJson.Put | src/CNT_JSON.c:270-304 | a typed set replaces, in place, the first child with the key (found by name) when a child of the type exists, and leaves every other child, same key or not, as it was; otherwise it appends |
| CntJson.SetInt | src/CNT_JSON.c:270-304 | after `setAttributeValue_Int` the getter reads back the new value. An existing number child is overwritten in place at the first child with the key, and every other child, same key or not, stays; otherwise the new child is appended |
| CntJson.PutReadsBack | src/CNT_JSON.c:270-304 | after a typed set, the typed lookup returns the stored value, at the replaced index or at the end |
| CntJson.SetString | src/CNT_JSON.c:527-562 | after `setAttributeValue_String` the getter reads back the new text. When a string child exists, the first child with the key (whatever its type) is overwritten in place, and every other child stays; otherwise the new child is appended |
| CntJson.FindBool | src/CNT_JSON.c:357-398 | the index found is the first boolean child with the key |
| CntJson.SetBool | src/CNT_JSON.c:357-398 | the boolean setter replaces the first boolean child with the key, or appends one; the getter reads the value back exactly when no non-boolean child with that key comes first |
| CntJson.SetBoolReadBack | src/CNT_JSON.c:317-398 | the read-back condition of the boolean setter, in both directions |
| CntJson.SetBoolShadowed | src/CNT_JSON.c:317-398 | an example where the boolean set cannot be read back, because a string child with the same key comes first |
| CntJson.IncrInt | src/CNT_JSON.c:306-315 | the increment finds a number child exactly when one has the key; the sum is undefined behaviour exactly when it leaves the C `int` range; otherwise the first child with the key now holds old value plus `incr`, which the getter reads back, and every other child stays; a failed search changes nothing |
| CntJson.IncrIntOverflow | src/CNT_JSON.c:306-315 | incrementing 2147483647 by one is undefined behaviour |
| CntJson.CreateRpc | src/CNT_JSON.c:28-38 | a new RPC object has exactly `method` then `id`, and these read back as given |
| CntJson.RespMembers | src/CNT_JSON.c:64-69 | a new response object has exactly an `id`, which reads back |
| CntJson.RespFor | src/CNT_JSON.c:71-74 | a response built from a request mirrors the request's `id` (-9999 if absent) |
| CntJson.RespForCreatedRpc | src/CNT_JSON.c:28-74 | a response to a freshly created RPC carries the RPC's id |
| CntJson.CopyNumbers | src/CNT_JSON.c:603-642 | copying to a map adds exactly the number children's keys; for a repeated key the last value wins; other entries keep their values |
| CntJson.JsonToMap | src/CNT_JSON.c:603-642 | `JSONToMap_Str_Double` fails exactly on a NULL object or map, leaves the map alone for a non-object, and otherwise copies as above |
| CntJson.GetKey | src/CNT_JSON.c:1166-1182 | `getKey` returns NULL for a NULL or non-object input, the first child with the key when there is one, and otherwise throws "key … not found" |
| CntJson.AsString | src/CNT_JSON.c:1193-1198 | `asString` succeeds exactly on a string, and otherwise throws "not a string" |
| CntJson.AsInt | src/CNT_JSON.c:1207-1212 | `asInt` succeeds exactly on a number, and otherwise throws "not a number" |
| CntJson.AccessorsAgreeWithGetters | src/CNT_JSON.c:1166-1212 | `asString` and `asInt` on what `getKey` finds read the first child with the key; when they succeed, they agree with the typed getters |
| CntJson.AsInt32 | src/CNT_JSON.c:12-26 | the hash as a C `int`: within 32-bit range and congruent to the unsigned value |
| CntJson.CreateStringHash | src/CNT_JSON.c:12-26 | the loop computes `33 * hash ^ c` over the bytes in 32-bit arithmetic, returns true, and the result is a 32-bit signed int |
| CntJson.HashAppend | src/CNT_JSON.c:12-26 | strings with equal hashes keep equal hashes when the same suffix is appended |
| CntJson.Hash | src/CNT_JSON.c:12-26 | the hash of a byte string, folded front to back; `CntJson.CreateStringHash` and `CntJson.HashAppend` state its properties |
| CntJson.HashStep | src/CNT_JSON.c:12-26 | one round of the hash, `33 * hash ^ c` in 32-bit arithmetic; `CntJson.HashAppend` states its property |
| LinuxSocket.DoReconnect | src/LinuxSocket.cpp:417-501 | `reconnect` succeeds exactly when `connect` does; a client socket is left open after a connect attempt |
| LinuxSocket.Init | src/LinuxSocket.cpp:63-130 | as a server, `init` succeeds exactly when socket, bind and listen all succeed, and it moves to SERVER_PORT_SETUP; as a client, it succeeds exactly when it connects, and it is then CONNECTED |
| LinuxSocket.ListenForClient | src/LinuxSocket.cpp:132-163 | listening succeeds exactly for a server with a socket; an accepted client makes the state CONNECTED |
| LinuxSocket.ResetConnection | src/LinuxSocket.cpp:351-385 | a server reset fails exactly when no port was set, and otherwise returns to SERVER_PORT_SETUP; a client reset follows `reconnect` |
| LinuxSocket.CloseConnection | src/LinuxSocket.cpp:387-404 | closing closes both sockets, keeps the state, and succeeds |
| LinuxSocket.CloseIdempotent | src/LinuxSocket.cpp:387-404 | closing twice is closing once |
| LinuxSocket.SendData | src/LinuxSocket.cpp:171-193 | sending zero bytes succeeds; otherwise the send succeeds exactly when a client socket is open and `send` succeeds |
| LinuxSocket.ReadBlock | src/LinuxSocket.cpp:298-340 | `readBlock` with no socket reads nothing; data is passed through up to the buffer length; EOF gives -1; EAGAIN/EINTR read nothing and succeed; other errors fail |
| LinuxSocket.ReadLineValid | src/LinuxSocket.cpp:195-295 | every finished `readLine` returns:<br>• a line with no terminator, no longer than the buffer;<br>• the bytes received, minus the terminator that ended it;<br>• -1 exactly on EOF with `stopOnDisconnect`, otherwise the length;<br>• a short successful line only when a terminator or an empty read ended it;<br>• `eof` exactly when EOF was seen |
| LinuxSocket.ReadLineSpec | src/LinuxSocket.cpp:195-295 | `readLine` as a function of the socket's event stream; `LinuxSocket.ReadLineValid` states what it returns |
| LinuxSocket.ReadLineFromValid | src/LinuxSocket.cpp:208-286 | the loop invariant of `readLine` is kept from any point of the event stream |
| LinuxSocket.ReadLineFrom | src/LinuxSocket.cpp:208-286 | one iteration of the `readLine` loop per socket event; `LinuxSocket.ReadLineFromValid` states its invariant |
| LinuxSocket.AfterEventValid | src/LinuxSocket.cpp:270-286 | the invariant survives each handled event: a byte, EAGAIN, EINTR, or EOF without stop |
| LinuxSocket.AfterEvent | src/LinuxSocket.cpp:270-286 | the timeout test at the bottom of the `readLine` loop; `LinuxSocket.AfterEventValid` states what it keeps |
| LinuxSocket.BytesSnoc | src/LinuxSocket.cpp:244-263 | the bytes received grow by one character per byte event, and by nothing otherwise |
| LinuxSocket.SilentPeerTimesOut | src/LinuxSocket.cpp:219-284 | after `ceil(budget/250)` consecutive EAGAINs, `readLine` gives up: with success when nothing was stored, with failure otherwise |
| LinuxSocket.ReadLineSilentPeer | src/LinuxSocket.cpp:273-284 | a silent peer yields an empty, successful line once the timeout is spent |
| LinuxSocket.ReadLinePartialTimesOut | src/LinuxSocket.cpp:244-279 | a first byte refills the budget; when silence then spends it, the partial line is kept and the call fails |
| LinuxSocket.ReadLine | src/LinuxSocket.cpp:195-295 | the loop over `recv` results computes the same line as the event-stream definition, with no terminator and its length as `numRead` |
| Framing.Extract | src/SocketTransport.cpp:344-350 | the frames cut from the buffer contain no newline, and neither does the tail kept |
| Framing.ExtractLossless | src/SocketTransport.cpp:344-350 | the frames, each followed by its newline, then the tail, are exactly the buffer |
| Framing.ExtractCount | src/SocketTransport.cpp:344-350 | there is one frame per newline in the buffer |
| Framing.ExtractUnique | src/SocketTransport.cpp:344-350 | any split of the buffer into newline-free frames plus a newline-free tail is the one extraction gives |
| Framing.ExtractIsSplitOn | src/SocketTransport.cpp:344-350 | the frames are all the newline-cut pieces but the last, and the tail is the last |
| Framing.ExtractChunked | src/SocketTransport.cpp:337-350 | the frames do not depend on how the stream was chunked into reads |
| Framing.ExtractNoNewline | src/SocketTransport.cpp:344-350 | newline-free text yields no frame and is kept whole |
| Framing.ExtractIdempotent | src/SocketTransport.cpp:344-350 | the tail left by an extraction has nothing further to extract |
| Framing.FramedCount | src/SocketTransport.cpp:344-350 | the framed text of newline-free frames has one newline per frame |
| Framing.FramedAppend | src/SocketTransport.cpp:344-350 | framing distributes over concatenation of frame sequences |
| Framing.ExtractLoop | src/SocketTransport.cpp:344-350 | the `find`/`substr` loop yields exactly the extraction, with one frame per newline |
| Framing.Deliver | src/SocketTransport.cpp:352-365 | with a callback, every frame is delivered and the counter advances by the number of frames; without one, nothing is delivered and the counter stays |
| Framing.DeliverNumbers | src/SocketTransport.cpp:352-365 | the i-th frame is delivered with sequence number counter+1+i, in order |
| Framing.DeliverAppend | src/SocketTransport.cpp:352-365 | delivering two batches one after the other is delivering their concatenation |
| SocketTransport.Init | src/SocketTransport.cpp:48-57 | `init` succeeds exactly when a socket was supplied |
| SocketTransport.UseSocket | src/SocketTransport.cpp:94-98 | supplying a socket changes nothing else |
| SocketTransport.RegisterRecvCallback | src/SocketTransport.cpp:86-92 | registering the callback changes nothing else |
| SocketTransport.StartComm | src/SocketTransport.cpp:108-150 | without a socket, start fails; when already running, it succeeds and changes nothing; otherwise it runs exactly when the thread could be spawned |
| SocketTransport.StopComm | src/SocketTransport.cpp:152-186 | stopping a running transport closes the connection, keeping its state; stopping a stopped one changes nothing |
| SocketTransport.ReadConnected | src/SocketTransport.cpp:300-317 | the connected read asks for fewer bytes than the block size; a line-mode read has no newline; a positive count is the data length |
| SocketTransport.Tick | src/SocketTransport.cpp:244-380 | one pass of `update_rx` over the connection state. It:<br>• appends what was read to the command buffer;<br>• cuts newline-free frames off the front, losing nothing;<br>• keeps the buffer newline-free;<br>• delivers every frame with consecutive numbers;<br>• reads only when CONNECTED;<br>• fails without change in an unknown state |
| SocketTransport.TickStates | src/SocketTransport.cpp:260-335 | NO_CONNECTION resets; SERVER_PORT_SETUP listens; SERVER_LISTENING idles; CONNECTED reads, and on a failed read resets and keeps the command buffer |
| SocketTransport.TickIsExtract | src/SocketTransport.cpp:337-350 | a pass's frames and new buffer are the extraction from the old buffer plus what the pass appended |
| SocketTransport.LineModeNeverFrames | src/SocketTransport.cpp:302-350 | in line mode the terminator is stripped, so no frame is ever cut and nothing reaches the callback |
| SocketTransport.RunIsExtract | src/SocketTransport.cpp:244-380 | over any run of passes, the frames delivered and the final buffer are the extraction of the old buffer plus everything received; callbacks are numbered consecutively |
| SocketTransport.Run | src/SocketTransport.cpp:192-203 | the receive thread's loop over passes of `update_rx`; `SocketTransport.RunIsExtract` states what it delivers |
| SocketTransport.StaleTailPrefixesNextFrame | src/SocketTransport.cpp:319-350 | a tail left by a dropped session becomes the front of the next session's first frame |
| SocketTransport.ResetKeepsTail | src/SocketTransport.cpp:319-350 | a CONNECTED pass whose read fails resets the connection but keeps the command buffer, and the first frame a later pass delivers starts with that kept tail |
| Registry.Sanitize | src/CommandProcessor.cpp:306-310 | sanitised names contain no space, `=` or `,` |
| Registry.SanitizeIsThreePasses | src/CommandProcessor.cpp:306-310 | sanitising equals the three erase passes, and leaves a clean name as it is |
| Registry.ValueInt | src/CommandProcessor.cpp:317-319 | the `value` read is the number's integer part, and 0 for types other than `true` |
| Registry.Item | src/CommandProcessor.cpp:291-327 | `cJSON_GetObjectItem` finds a child exactly when one has the key, and returns the first such child |
| Registry.ReadParams | src/CommandProcessor.cpp:297-350 | a request is read only when all four parameters are present. A missing parameter yields exactly the handler's log line for it (none for `path_name`). A non-string `path_name` or `key_name`, or a path of fewer than four backslash-separated pieces, is undefined behaviour. The root is the third piece, the section the sanitised fourth, the key the sanitised `key_name`; `createKey` is set exactly for `true` |
| Registry.ReadParamsPath | src/CommandProcessor.cpp:338-350 | for a path glued from backslash-free pieces, the request writes to the root and section the third and fourth pieces name, and fewer than four pieces is undefined behaviour |
| Registry.RequestParams | src/CommandProcessor.cpp:290-296 | a missing `params` fails quietly; a request and any log line come only from the first `params`, as an object; the outcome is undefined exactly when that object's parameters are, or when a scalar `params` is followed by a `path_name` sibling |
| Registry.Apply | src/CommandProcessor.cpp:366-414 | an existing key gets the decimal value; a missing key is created only with `createKey` in an existing section; otherwise the document is kept. It logs the update line for an existing key, nothing without `createKey`, and otherwise the creating line followed by the failure line when the section is missing |
| Registry.SetRegistrySetting | src/CommandProcessor.cpp:286-422 | the handler answers `{"Success": true}` with the request's id exactly when the request is complete and the document loaded; the saved document is the edited one. Its log lines are those of the missing parameter, none on a load failure, and those of the edit otherwise. It is undefined exactly when reading the parameters is |
| CommandProcessor.Receive | src/CommandProcessor.cpp:91-106 | the receive callback appends the frame to the back of the FIFO and changes nothing else |
| CommandProcessor.ReceiveAll | src/CommandProcessor.cpp:91-106 | receiving frames one by one appends them, in order |
| CommandProcessor.SetBuildStats | src/CommandProcessor.cpp:465-468 | setting the build stats changes nothing else |
| CommandProcessor.ReplyObject | src/CommandProcessor.cpp:256 | the reply object is the response's children followed by the `log_msgs` array |
| CommandProcessor.BuildStatsReply | src/CommandProcessor.cpp:443-463 | the build-stats reply has exactly `id` and `result`, mirrors the request id, and adds no log line |
| CommandProcessor.BuildStatsLossless | src/CommandProcessor.cpp:449-456 | the reported lines are the `getline` split of the build-stats text, which re-joined gives the text back |
| CommandProcessor.Finish | src/CommandProcessor.cpp:216-228 | a handler's response is sent as is; a NULL response becomes error -991 with "Error in RPC method" logged |
| CommandProcessor.Route | src/CommandProcessor.cpp:198-215 | only `setRegistrySetting` can touch the document or be undefined, and it loads the registry file exactly for a complete request; no route quits |
| CommandProcessor.RouteFirstMatchWins | src/CommandProcessor.cpp:198-215 | handlers are matched by substring, in the order set, get, build stats, printer API, and the first match wins |
| CommandProcessor.QuitReply | src/CommandProcessor.cpp:185-190 | the quit reply has exactly `id` 0 and logs "ScorpionServer shutting down..." |
| CommandProcessor.Classify | src/CommandProcessor.cpp:178-250 | a frame containing `quit` anywhere gets the quit reply; unparseable text gets -993; an object without a string `method` gets -992; otherwise the frame is answered by `Route` on its `method` name |
| CommandProcessor.AnswerParsed | src/CommandProcessor.cpp:195-238 | a parsed frame never stops the worker, and loads the registry file only for a complete registry write; its outcome is undefined only for a bare string, a bare number, or a request object with a string `method`, which is answered by `Route` on that name (whose handler then decides) |
| CommandProcessor.NoMethodReply | src/CommandProcessor.cpp:228-238 | a parsed frame other than a bare string or number, without a string `method`, is answered with -992 and the log line `No method listed in RPC`; the reply carries the request's id, which is -9999 for an array, `null`, `true` or `false` |
| CommandProcessor.HandlerFailedReply | src/CommandProcessor.cpp:212-226 | a request routed to the printer API whose handler returns no response is answered with -991 after the handler's log lines |
| CommandProcessor.Wire | src/CommandProcessor.cpp:259-262 | every reply goes on the wire ending in a newline |
| CommandProcessor.ReplyIsOneFrame | src/CommandProcessor.cpp:259-262 | a reply rendered without a newline is exactly one frame to a newline-framing reader |
| CommandProcessor.ProcessCommands | src/CommandProcessor.cpp:154-277 | a command is processed exactly when the worker runs and the FIFO is non-empty. The front frame is popped, and its reply is the one `Classify` gives that frame. The worker stops exactly on `quit` with `exit_on_quit`. Every defined dispatch sends one newline-terminated reply. The XML file table gains an empty `XUSB` entry exactly when it had none and the frame was a complete registry write; nothing else changes |
| CommandProcessor.Touch | src/CommandProcessor.cpp:367 | `std::map::operator[]` adds the key with an empty value when absent and keeps every existing entry |
| CommandProcessor.TouchIdempotent | src/CommandProcessor.cpp:367-414 | looking the entry up again, as the save does, changes nothing more |
| CommandProcessor.QuitAnywhere | src/CommandProcessor.cpp:178-191 | any frame containing `quit` is answered with the quit reply, whatever else it holds |
| CommandProcessor.RegistryWriteAddsXusbEntry | src/CommandProcessor.cpp:365-414 | a complete registry write looks up `m_XML_Files["XUSB"]`, which adds the entry with an empty name when it is missing |
| CommandProcessor.DrainQueue | src/CommandProcessor.cpp:475-487 | the worker loop takes queued frames exactly once, in arrival order. With `exit_on_quit` (the default) it stops right after the first frame mentioning `quit` and leaves the rest queued; otherwise it empties the queue. Only the running flag and the `XUSB` entry can change otherwise |
| CommandProcessor.TakeFront | src/CommandProcessor.cpp:154-180 | one pass pops exactly the front frame, stops exactly on `quit` with `exit_on_quit`, and changes nothing else but the `XUSB` entry |
| CommandProcessor.StreamToQueue | src/SocketTransport.cpp:337-365 | frames framed from the byte stream arrive in the FIFO in stream order |
| CommandProcessor.AddXmlFiles | src/CommandProcessor.cpp:40-48 | the XML file map gains exactly one name per entry and keeps existing entries |
| CommandProcessor.AddXmlFilesFirstWins | src/CommandProcessor.cpp:40-48 | `map::insert` keeps the first file given for a name |
| CommandProcessor.Init | src/CommandProcessor.cpp:27-89 | `Init` fails without change when `ipAddress` or `port` is missing, whatever `XML_Files` holds. Once both are found, every `XML_Files` entry is an object whose first child is a string, and the XML file table gains each entry's first child (name to file), existing names kept. It succeeds exactly when the server socket is set up and the printer API initialises. It leaves a transport with a socket and callback, listening on the configured port |
| CommandProcessor.InitRejectsWithoutAddress | src/CommandProcessor.cpp:32-37 | a configuration that is a bare number, or an object whose only member is an `XML_Files` array holding a null, is inside Init's domain and is rejected without change |
| CommandProcessor.Start | src/CommandProcessor.cpp:108-132 | start succeeds exactly when both threads are spawned; only the running flag changes |
| CommandProcessor.Shutdown | src/CommandProcessor.cpp:139-151 | shutdown clears the running flag, stops the transport, and succeeds |
| CommandProcessor.ShutdownStopsWorker | src/CommandProcessor.cpp:139-170 | after shutdown, processing commands does nothing |

## Left out

- System calls: socket, bind, listen, accept, connect, recv, send, close, poll and `usleep` are outcomes passed in as parameters. Their side effects beyond those outcomes are not modelled.
- Threads, mutexes and the worker loops (`thread_func` in SocketTransport.cpp and CommandProcessor.cpp): each pass is a function call. Interleavings are not modelled.
- Callback.h: the callback is reduced to a flag and the sequence numbers it is handed.
- client.cpp and server.cpp: these are drivers, not part of the core.
- cJSON parsing and printing: these are the `parse` and `render` parameters of `Services`. Numbers hold an abstract `valueint` and an exact `valuedouble`.
- The printer API (`XaarCmdAPI`): this is the `api` parameter, and an `apiOk` flag for its `Init`.
- The registry file: tinyxml2 load and save are an optional document parameter. `None` is a load failure. Which file the `XUSB` name points to is not modelled; only the entry the lookup adds to the table is. The new key's `type="string"` attribute is not kept.
- Logging to the Logger: only the lines added to `log_msgs` are modelled.
- Floating point: `AreSame`, the double increment and setter, `getAttributeDefault_Double` and `MapToJSON_*`. The `valuedouble` of a number is a Dafny `real`.
- `mergeJSONObjects`, `diffJSONObject(s)`, `addParamsMap`, `getAttributeValue_IntArray`, `JSONToMap_Int_Double`, `getItem`, `asDouble`, and the file read/write helpers: these lie outside the modelled core.
- `TransmitData`, `update_tx`, `doWork` and `ListenForTraffic`: these only delegate or are empty. SocketTransport's `ResetConnection`/`CloseConnection` delegate to LinuxSocket's, and are modelled there.
- `getConnectionState` is reading the endpoint's `state` field. `getRegistrySetting` is modelled inside `CommandProcessor.Route`.
- `SocketTransport.Tick`: `m_Invoke_Cnt` is an unbounded integer. The overflow of a `long long` is not modelled.
- `SocketTransport.Tick`: a line read that fills the whole 32768-byte buffer is excluded by precondition. The C++ code then writes no terminating NUL (SocketTransport.cpp:303,341).
- `CntJson.SetInt`: requires that replace-by-key hits the child the typed search found. The write after the replace (CNT_JSON.c:291-292) then lands on the freed item. Without the requirement it would change the `valueint` of a live later child, which the model does not represent.
- `CntJson.IncrInt`: carries the same requirement as `CntJson.SetInt`, for the same reason.
- `CntJson.Put`: the setters are modelled on an object's children only. On a number, string or other non-object, the C++ walks the sibling chain instead; that case is not modelled.
- `CntJson.CreateStringHash`: the signed overflow of `33 * hash` is modelled as 32-bit two's-complement wrap-around, as the compiler in practice produces it.
- `Registry.ValueInt`: assumes cJSON's parser sets `valueint` to 1 for `true` and to 0 for other non-numbers.
- `LinuxSocket.ReadLine`: the timeout is counted in whole 250 µs polls over a finite prefix of socket events. A read that the events do not finish is `Pending`.
- `CommandProcessor.Init`: a configuration that is a bare JSON string is outside its domain, because the `ipAddress` lookup then reads through a NULL key. So is a configuration with `ipAddress` and `port` where some `XML_Files` entry is not an object whose first child is a string.
- `CommandProcessor.Classify`: the undefined cases are a bare JSON string as a frame, and a bare number without a `method`. On these `getID` or the method lookup reads through a NULL key. They are `Undefined` and not given a reply.
