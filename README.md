# A verified model of the C++ concept examples: WebSocket framing, abstraction layers and the IPC message record

This project models three parts of the C++ concept examples and proves properties of them.
The model is written in Dafny.

- **WebSocket** (`Concepts/Networking/web_socket.cpp`). The model covers:
  - the frame serialiser `create_frame` and the frame parser `parse_frame`, from section 5.2 of RFC 6455, including the unmasking rule of section 5.3;
  - the masked client frame that `WebSocketClient::sendMessage` builds;
  - the header parser `parse_headers`;
  - the upgrade check of `handleWebSocketClient`;
  - the server's `create_handshake_response`.

  The modules are `Bytes`, `WebSocketFrames` and `WebSocketHandshake`.
- **Abstraction** (`Concepts/OOP/abstraction.cpp`). The model covers:
  - the `DatabaseConnection` interface, with its template method `executeTransaction` and the PostgreSQL and MySQL connections (module `Database`);
  - the `Stack<T>` interface with `pushMultiple`/`popMultiple`, and its implementations `ArrayStack<T>` and `VectorStack<T>` (module `Stacks`);
  - the network layers: `TCPProtocol`'s packet creation and parsing, and `HttpClient`'s requests (module `NetworkLayers`);
  - the pimpl `FileManager::Impl` (module `Files`).
- **IPC** (`Concepts/IPC/message_queues.cpp`). The fixed-size `Message` record, with its two constructors and `toString` (module `Messages`).

Modelling conventions:
- **Characters and bytes.** A C++ `char` is a `CChar`, a character below 256. A `uint8_t` is a `Byte`, a number in 0..255. Where a `std::string` meets bytes (modules `Bytes`, `WebSocketFrames`, `NetworkLayers` and `Messages`), it is a `CString`, a sequence of `CChar`. Where only its characters are compared (modules `WebSocketHandshake`, `Database` and `Files`), it is a Dafny `string`, whose characters are not limited to 256; every result there holds for `CString` values too.
- **Bit operations.** The C++ bit operations on bytes are written out as arithmetic. The correspondence is listed at the head of `websocket_frames.dfy`.
- **Exceptions.** A thrown exception becomes the `Failure` case of a `Result`.
- **Console output.** It is left out, except for the database connections. There, the printed lines are a log of events. The order of those events is what `executeTransaction` promises.
- **Code that loops or changes objects.** It is imperative Dafny: classes whose methods change their fields, and methods with loops. Each is proved against a function that gives the operation's meaning. The properties of those functions are proved as lemmas.

## Model

| member | source | states |
|---|---|---|
| Bytes.ToBytes | Concepts/OOP/abstraction.cpp:337-345 | one `static_cast<uint8_t>` per character: same length, byte `i` is the code of character `i` |
| Bytes.FromBytes | Concepts/OOP/abstraction.cpp:347-354 | one `static_cast<char>` per byte: same length, character `i` has the value of byte `i` |
| Bytes.StringBytesRoundTrip | Concepts/OOP/abstraction.cpp:337-354 | parsing the packet built from a string gives the string back |
| Bytes.BytesStringRoundTrip | Concepts/OOP/abstraction.cpp:337-354 | building a packet from parsed bytes gives the bytes back |
| Bytes.ToBytesAppend | Concepts/Networking/web_socket.cpp:209-211 | casting a concatenation is the concatenation of the casts |
| Bytes.XorBits | Concepts/Networking/web_socket.cpp:175 | the bitwise `^` stays below 2^width |
| Bytes.XorBitsBit | Concepts/Networking/web_socket.cpp:175 | bit `k` of `a ^ b` is set exactly when bits `k` of `a` and `b` differ |
| Bytes.XorBitsTwice | Concepts/Networking/web_socket.cpp:175 | XORing twice with the same value restores the low bits |
| Bytes.XorTwice | Concepts/Networking/web_socket.cpp:175 | XORing a byte twice with the same key byte gives it back |
| WebSocketFrames.BigEndian | Concepts/Networking/web_socket.cpp:137-156 | the value of `width` big-endian bytes is below 256^width |
| WebSocketFrames.BigEndianBytes | Concepts/Networking/web_socket.cpp:197-206 | the bytes `create_frame` pushes for a length have the requested width |
| WebSocketFrames.BigEndianBytesAt | Concepts/Networking/web_socket.cpp:199-205 | byte `k` is the shift expression `(n >> 8*(width-1-k)) & 0xFF` |
| WebSocketFrames.BigEndianBytesShifts | Concepts/Networking/web_socket.cpp:199-205 | every byte is its shift expression |
| WebSocketFrames.BigEndianRoundTrip | Concepts/Networking/web_socket.cpp:137-206 | reading back the bytes `create_frame` writes for a length gives the length, when it fits the width |
| WebSocketFrames.BigEndianTwo | Concepts/Networking/web_socket.cpp:141 | two bytes read as `(d[0] << 8) \| d[1]` |
| WebSocketFrames.BigEndianFour | Concepts/Networking/web_socket.cpp:161-162 | four bytes read as the 32-bit masking key |
| WebSocketFrames.BigEndianAllOnes | Concepts/Networking/web_socket.cpp:147-150 | eight 0xFF bytes read as 2^64 - 1 |
| WebSocketFrames.KeyBytes | Concepts/Networking/web_socket.cpp:432-437 | the four key bytes `sendMessage` inserts, most significant first |
| WebSocketFrames.KeyRoundTrip | Concepts/Networking/web_socket.cpp:157-163 | the key bytes written by the client are read back by `parse_frame` as the same key |
| WebSocketFrames.Mask | Concepts/Networking/web_socket.cpp:172-177 | payload byte `i` is XORed with key byte `i mod 4` |
| WebSocketFrames.MaskInvolution | Concepts/Networking/web_socket.cpp:441-443 | unmasking undoes the masking of `sendMessage` |
| WebSocketFrames.OrHighBit | Concepts/Networking/web_socket.cpp:188-190 | `b \| 0x80` sets bit 7 and keeps the other bits |
| WebSocketFrames.LengthField | Concepts/Networking/web_socket.cpp:194-206 | 7-bit length below 126; 126 and a 16-bit length up to 0xFFFF; 127 and a 64-bit length above |
| WebSocketFrames.EncodeFrame | Concepts/Networking/web_socket.cpp:183-214 | the frame is the header followed by the payload bytes |
| WebSocketFrames.EncodeFrameHeader | Concepts/Networking/web_socket.cpp:186-206 | the opcode is in the low nibble, RSV1-3 are clear, FIN is bit 7, the mask bit is clear, and the length encoding is as in section 5.2 |
| WebSocketFrames.CreateFrame | Concepts/Networking/web_socket.cpp:183-214 | the push loop builds exactly `EncodeFrame` |
| WebSocketFrames.PushLengthField | Concepts/Networking/web_socket.cpp:195-206 | appends the length field |
| WebSocketFrames.PushBigEndian | Concepts/Networking/web_socket.cpp:203-205 | the shift loop appends the big-endian bytes |
| WebSocketFrames.DecodeFrame | Concepts/Networking/web_socket.cpp:115-180 | a parsed frame keeps the mask bit, and its payload has the announced length, no longer than the input |
| WebSocketFrames.DecodeFrameFails | Concepts/Networking/web_socket.cpp:119-169 | each of the four exceptions is thrown exactly when the input ends before the part it guards |
| WebSocketFrames.ParseFrame | Concepts/Networking/web_socket.cpp:115-180 | the offset-advancing parser returns or throws exactly what `DecodeFrame` says |
| WebSocketFrames.ReadPayloadLength | Concepts/Networking/web_socket.cpp:134-156 | reads the 7-, 16- or 64-bit length, or fails when the extended length is cut off |
| WebSocketFrames.ReadBigEndian | Concepts/Networking/web_socket.cpp:147-150 | the accumulate-and-shift loop computes the big-endian value |
| WebSocketFrames.CopyPayload | Concepts/Networking/web_socket.cpp:171-177 | the copied payload is the input slice, unmasked when the mask bit is set |
| WebSocketFrames.FrameRoundTrip | Concepts/Networking/web_socket.cpp:115-214 | parsing a created frame gives back FIN, the opcode, a clear mask, the length and the payload |
| WebSocketFrames.DecodeUnmaskedLayout | Concepts/Networking/web_socket.cpp:115-180 | what the parser returns for a complete unmasked frame |
| WebSocketFrames.FirstByteBits | Concepts/Networking/web_socket.cpp:124-129 | the first byte decodes back into FIN, clear RSV bits and the opcode |
| WebSocketFrames.ClientFrameAsWritten | Concepts/Networking/web_socket.cpp:424-443 | the `sendMessage` frame is 4 bytes longer than the unmasked frame |
| WebSocketFrames.MaskedFrame | Concepts/Networking/web_socket.cpp:424-443 | the masked frame of section 5.2, with the key after the extended length, is 4 bytes longer than the unmasked frame |
| WebSocketFrames.SendMessageFrame | Concepts/Networking/web_socket.cpp:424-443 | setting the mask bit, inserting the key at index 2 and XORing in place builds `ClientFrameAsWritten` |
| WebSocketFrames.ClientFrameLayout | Concepts/Networking/web_socket.cpp:428-437 | the frame before the XOR loop |
| WebSocketFrames.MaskTail | Concepts/Networking/web_socket.cpp:440-443 | the XOR loop masks everything from `payload_start` on and nothing before |
| WebSocketFrames.MaskedFrameRoundTrip | Concepts/Networking/web_socket.cpp:115-180 | a correctly masked frame of any length parses back with its key and its payload |
| WebSocketFrames.MaskedLengthLayout | Concepts/Networking/web_socket.cpp:134-156 | with the mask bit set, the length field still announces its extended length |
| WebSocketFrames.DecodeMaskedLayout | Concepts/Networking/web_socket.cpp:115-180 | what the parser returns for a complete masked frame |
| WebSocketFrames.ShortClientFrameRoundTrip | Concepts/Networking/web_socket.cpp:424-443 | a message under 126 bytes sent by `sendMessage` parses back masked, with key 0x12345678 and the message as payload |
| WebSocketFrames.LongClientFrameMisparsed | Concepts/Networking/web_socket.cpp:432 | for 126 to 65535 bytes the key bytes are read as the length 0x1234: the frame fails, or parses with a wrong key |
| WebSocketFrames.WrappedPayloadCheckPasses | Concepts/Networking/web_socket.cpp:167 | a 10-byte frame announcing 2^64 - 1 bytes passes the wrapping check and fails the unbounded one |
| WebSocketFrames.PayloadCheckAsWritten | Concepts/Networking/web_socket.cpp:167 | the 64-bit check rejects exactly the frames the unbounded check rejects, whenever the sum fits in 64 bits |
| WebSocketFrames.HugeClientFrameMisparsed | Concepts/Networking/web_socket.cpp:432 | for 65536 bytes or more the key bytes and the first four length bytes are read as a length of at least 0x1234_5678_0000_0000, so the frame fails as too short |
| WebSocketFrames.HugeClientFrameLayout | Concepts/Networking/web_socket.cpp:428-437 | such a frame is 14 bytes longer than the message, has the mask bit and the length code 127, and the key in its first four length bytes |
| WebSocketFrames.ClientFrameInserted | Concepts/Networking/web_socket.cpp:432-437 | inserting the key at index 2 puts it between the second byte and the length bytes |
| WebSocketFrames.BigEndianAtLeastPrefix | Concepts/Networking/web_socket.cpp:147-150 | a big-endian number is at least its leading bytes shifted into place |
| WebSocketHandshake.FindFrom | Concepts/Networking/web_socket.cpp:85 | `find` returns an index at or after `from` holding the character, or `npos` |
| WebSocketHandshake.FindFromSkips | Concepts/Networking/web_socket.cpp:85 | no earlier position holds the character |
| WebSocketHandshake.Lines | Concepts/Networking/web_socket.cpp:82-84 | `getline` extracts no line exactly from the empty input, and never more lines than characters |
| WebSocketHandshake.LinesHaveNoNewlines | Concepts/Networking/web_socket.cpp:82-84 | no line `getline` extracts holds a '\n' |
| WebSocketHandshake.LinesOfJoin | Concepts/Networking/web_socket.cpp:82-84 | `getline` gives back the lines that were joined with '\n' |
| WebSocketHandshake.LinesAfterLine | Concepts/Networking/web_socket.cpp:82-84 | `getline` extracts a line and goes on after its '\n' |
| WebSocketHandshake.ReadLine | Concepts/Networking/web_socket.cpp:82-84 | one `getline` call fails exactly at the end of the input, and otherwise extracts the next line |
| WebSocketHandshake.LinesAt | Concepts/Networking/web_socket.cpp:82-84 | the line from `pos` ends at the first '\n' |
| WebSocketHandshake.FirstNotOf | Concepts/Networking/web_socket.cpp:91-93 | `find_first_not_of` returns a position whose character is outside the set, or `npos` |
| WebSocketHandshake.FirstNotOfSkips | Concepts/Networking/web_socket.cpp:91-93 | every earlier character is in the set |
| WebSocketHandshake.LastNotOf | Concepts/Networking/web_socket.cpp:92-94 | `find_last_not_of` returns a position whose character is outside the set, or -1 |
| WebSocketHandshake.LastNotOfSkips | Concepts/Networking/web_socket.cpp:92-94 | every later character is in the set |
| WebSocketHandshake.TrimLeft | Concepts/Networking/web_socket.cpp:91 | the result does not start with a space or tab |
| WebSocketHandshake.TrimRight | Concepts/Networking/web_socket.cpp:92 | the result does not end with a space, tab, CR or LF |
| WebSocketHandshake.Trim | Concepts/Networking/web_socket.cpp:91-94 | the result is no longer than the input and does not end with a space, tab, CR or LF; with `TrimTrims`, it does not start with a space or tab either |
| WebSocketHandshake.TrimTrims | Concepts/Networking/web_socket.cpp:91-94 | trimming yields a trimmed string |
| WebSocketHandshake.TrimKeepsTrimmed | Concepts/Networking/web_socket.cpp:91-94 | trimming leaves a trimmed string unchanged |
| WebSocketHandshake.FieldOf | Concepts/Networking/web_socket.cpp:85-94 | a split line yields a name and a value shorter together than the line, which loses at least its ':' |
| WebSocketHandshake.FieldOfNone | Concepts/Networking/web_socket.cpp:85-86 | a line is skipped exactly when it has no ':' |
| WebSocketHandshake.FieldOfTrimmed | Concepts/Networking/web_socket.cpp:85-94 | the key has no ':', and key and value are trimmed |
| WebSocketHandshake.TakeUntilBlank | Concepts/Networking/web_socket.cpp:84 | the loop stops at the first line equal to "\r" |
| WebSocketHandshake.ParseHeaders | Concepts/Networking/web_socket.cpp:76-101 | the line-by-line loop returns exactly `HeaderMap` |
| WebSocketHandshake.SplitField | Concepts/Networking/web_socket.cpp:85-94 | the in-place split and trims compute `FieldOf` |
| WebSocketHandshake.BlankLineStops | Concepts/Networking/web_socket.cpp:84 | the loop stops at "\r" |
| WebSocketHandshake.CollectFieldLine | Concepts/Networking/web_socket.cpp:84-97 | the loop goes on past any other line |
| WebSocketHandshake.CollectAppend | Concepts/Networking/web_socket.cpp:84-97 | the loop stores the lines in order |
| WebSocketHandshake.LaterFieldWins | Concepts/Networking/web_socket.cpp:96 | a repeated field name keeps the last value |
| WebSocketHandshake.AddFieldEffect | Concepts/Networking/web_socket.cpp:85-97 | a line without ':' changes nothing; a field line sets exactly its own name |
| WebSocketHandshake.FieldLines | Concepts/Networking/web_socket.cpp:104-112 | one `name: value` line per field |
| WebSocketHandshake.FieldOfFieldLine | Concepts/Networking/web_socket.cpp:85-94 | a well-formed field line splits back into its name and value |
| WebSocketHandshake.CollectFieldLines | Concepts/Networking/web_socket.cpp:84-97 | collecting the field lines stores the fields in order |
| WebSocketHandshake.RequestLines | Concepts/Networking/web_socket.cpp:82-84 | the lines of a request head have no '\n', and no field line is "\r" |
| WebSocketHandshake.HeaderMap | Concepts/Networking/web_socket.cpp:76-101 | an empty request has no fields, and every stored name and value is trimmed and every name is free of ':' |
| WebSocketHandshake.CollectKeepsTrimmed | Concepts/Networking/web_socket.cpp:84-97 | the loop stores only trimmed names without ':' and trimmed values |
| WebSocketHandshake.HeaderMapOfRequest | Concepts/Networking/web_socket.cpp:76-101 | `parse_headers` reads back the fields of any request head: later names win, and what follows the blank line is ignored |
| WebSocketHandshake.IsUpgradeRequest | Concepts/Networking/web_socket.cpp:281 | an accepted request has `Upgrade` equal to "websocket" and a `Connection` that contains "Upgrade"; a missing field reads as "" and is rejected |
| WebSocketHandshake.LowerCaseUpgradeRejected | Concepts/Networking/web_socket.cpp:281 | field names are case-sensitive, so `upgrade` is not `Upgrade` |
| WebSocketHandshake.UpgradeRequestAccepted | Concepts/Networking/web_socket.cpp:273-281 | a request whose last `Upgrade` is "websocket" and whose last `Connection` contains "Upgrade" passes the check |
| WebSocketHandshake.StoreAllAppend | Concepts/Networking/web_socket.cpp:96 | storing two runs of fields is storing one after the other |
| WebSocketHandshake.HandshakeResponse | Concepts/Networking/web_socket.cpp:104-112 | starts with the 101 status line, ends with an empty line, and holds the accept-key line at offset 75 |
| WebSocketHandshake.ResponseHasAcceptKey | Concepts/Networking/web_socket.cpp:104-112 | the accept-key line is present, as `find` sees it |
| WebSocketHandshake.ResponseLayout | Concepts/Networking/web_socket.cpp:104-112 | the response is a header block of three fields after the status line |
| WebSocketHandshake.JoinAppend | Concepts/Networking/web_socket.cpp:104-112 | joining two runs of lines is joining each |
| WebSocketHandshake.ResponseHeaders | Concepts/Networking/web_socket.cpp:76-112 | parsing the response gives exactly its three fields, and it passes the upgrade check |
| Stacks.Pushed | Concepts/OOP/abstraction.cpp:209-214 | `push` fails exactly on a full bounded stack, and otherwise adds one item |
| Stacks.Popped | Concepts/OOP/abstraction.cpp:216-221 | `pop` fails exactly on an empty stack, and otherwise removes one item |
| Stacks.TopOf | Concepts/OOP/abstraction.cpp:223-228 | `top` fails exactly on an empty stack |
| Stacks.PushAll | Concepts/OOP/abstraction.cpp:183-187 | `pushMultiple` adds at most all the items, and an escaping exception can only be the overflow of a bounded stack |
| Stacks.PopMany | Concepts/OOP/abstraction.cpp:189-195 | `popMultiple` pops at most `count` items, and the popped and the remaining items together are as many as before |
| Stacks.PushThenPop | Concepts/OOP/abstraction.cpp:209-228 | `push` throws overflow exactly on a full array stack and changes nothing; otherwise the size grows by one, `top` is the item, and `pop` returns it and restores the stack |
| Stacks.PopShrinks | Concepts/OOP/abstraction.cpp:216-232 | `pop` and `top` throw exactly on an empty stack ("Stack underflow", "Stack is empty"); `pop` removes the top only |
| Stacks.PushAllFills | Concepts/OOP/abstraction.cpp:183-187 | `pushMultiple` appends all the items, or as many as fit before the overflow escapes |
| Stacks.PopManyTakesTop | Concepts/OOP/abstraction.cpp:189-195 | `popMultiple` pops `min(count, size)` items, most recent first, and leaves the bottom |
| Stacks.StepAgreement | Concepts/OOP/abstraction.cpp:170-273 | a call that fits in 1000 slots gets the same reply from both stacks; one that does not throws only on the array stack |
| Stacks.ArrayMatchesVector | Concepts/OOP/abstraction.cpp:170-273 | the two stacks give the same replies to a call sequence exactly when it never needs more than 1000 slots |
| Stacks.StackDemo | Concepts/OOP/abstraction.cpp:580-600 | the demonstration prints size 5, top 5, popped 5 4 3, remaining 2, on both stacks |
| Stacks.ArrayStack.constructor | Concepts/OOP/abstraction.cpp:207 | a new array stack is empty |
| Stacks.ArrayStack.Push | Concepts/OOP/abstraction.cpp:209-214 | the new contents or the overflow, as `Pushed` gives them |
| Stacks.ArrayStack.Pop | Concepts/OOP/abstraction.cpp:216-221 | the top item and the stack without it, or underflow |
| Stacks.ArrayStack.Top | Concepts/OOP/abstraction.cpp:223-228 | the top item, or "Stack is empty" |
| Stacks.ArrayStack.Empty | Concepts/OOP/abstraction.cpp:230-232 | true exactly when there are no items |
| Stacks.ArrayStack.Size | Concepts/OOP/abstraction.cpp:234-236 | the number of items |
| Stacks.ArrayStack.PushMultiple | Concepts/OOP/abstraction.cpp:183-187 | the contents and the escaping exception are those of `PushAll` |
| Stacks.ArrayStack.PopMultiple | Concepts/OOP/abstraction.cpp:189-195 | the popped items and the rest are those of `PopMany` |
| Stacks.VectorStack.constructor | Concepts/OOP/abstraction.cpp:240-243 | a new vector stack is empty |
| Stacks.VectorStack.Push | Concepts/OOP/abstraction.cpp:246-248 | appends the item, with no bound |
| Stacks.VectorStack.Pop | Concepts/OOP/abstraction.cpp:250-257 | the top item and the stack without it, or underflow |
| Stacks.VectorStack.Top | Concepts/OOP/abstraction.cpp:259-264 | the top item, or "Stack is empty" |
| Stacks.VectorStack.Empty | Concepts/OOP/abstraction.cpp:266-268 | true exactly when there are no items |
| Stacks.VectorStack.Size | Concepts/OOP/abstraction.cpp:270-272 | the number of items |
| Stacks.VectorStack.PushMultiple | Concepts/OOP/abstraction.cpp:183-187 | appends all the items in order |
| Stacks.VectorStack.PopMultiple | Concepts/OOP/abstraction.cpp:189-195 | the popped items and the rest are those of `PopMany` |
| NetworkLayers.CreateTcpPacket | Concepts/OOP/abstraction.cpp:337-345 | the packet is one byte per character of the data |
| NetworkLayers.ParseTcpPacket | Concepts/OOP/abstraction.cpp:347-354 | the result is one character per byte |
| NetworkLayers.SendPacket | Concepts/OOP/abstraction.cpp:323-329 | succeeds, and the sent bytes parse back to the data |
| NetworkLayers.ReceivePacket | Concepts/OOP/abstraction.cpp:331-334 | the response is the device's four bytes 01 02 03 04 as characters |
| NetworkLayers.GetRequest | Concepts/OOP/abstraction.cpp:368 | `GET `, the url, then ` HTTP/1.1` and two CRLFs: 17 characters more than the url |
| NetworkLayers.PostRequest | Concepts/OOP/abstraction.cpp:374-375 | `POST ` and the url first, the body last, 36 characters more than url, length digits and body |
| NetworkLayers.Decimal | Concepts/OOP/abstraction.cpp:375 | `std::to_string` of a length is at least one decimal digit and digits only |
| NetworkLayers.Get | Concepts/OOP/abstraction.cpp:367-371 | succeeds, and the bytes sent are the GET request text |
| NetworkLayers.Post | Concepts/OOP/abstraction.cpp:373-378 | succeeds, and the bytes sent are the POST request text |
| NetworkLayers.GetResponse | Concepts/OOP/abstraction.cpp:380-382 | the device's four bytes |
| NetworkLayers.DecimalRoundTrip | Concepts/OOP/abstraction.cpp:375 | `std::to_string` writes digits with no leading zero that read back as the number |
| NetworkLayers.GetHasNoFields | Concepts/OOP/abstraction.cpp:367-371 | a GET request is a header block with no fields, so `parse_headers` finds none |
| NetworkLayers.PostDeclaresBodyLength | Concepts/OOP/abstraction.cpp:373-378 | the POST header block yields exactly one field, `Content-Length`, whose value reads back as the body length |
| NetworkLayers.PostLayout | Concepts/OOP/abstraction.cpp:374-375 | the POST text is the header block with start line `POST <url> HTTP/1.1`, then the body |
| NetworkLayers.OneFieldHeaderMap | Concepts/Networking/web_socket.cpp:76-101 | a header block with one well-formed field parses to that field alone |
| NetworkLayers.LengthFieldWellFormed | Concepts/OOP/abstraction.cpp:375 | the `Content-Length` field survives the parser's split and trims |
| NetworkLayers.DemoRequestSizes | Concepts/OOP/abstraction.cpp:612-613 | the demonstration's GET is 27 bytes and its POST 65 |
| Database.Transaction | Concepts/OOP/abstraction.cpp:24-39 | a closed connection logs nothing and fails; an open one logs its own begin statement first and at least one event after it; success needs an open connection and a successful commit |
| Database.RunQueries | Concepts/OOP/abstraction.cpp:31-38 | the loop logs at least one and at most one event more than there are queries, and succeeds only through a successful commit |
| Database.Executions | Concepts/OOP/abstraction.cpp:31-36 | one `Executing` event per query, in order |
| Database.ClosedConnectionDoesNothing | Concepts/OOP/abstraction.cpp:25-27 | on a closed connection the transaction fails before `beginTransaction` |
| Database.FirstFailureRollsBack | Concepts/OOP/abstraction.cpp:29-36 | when query `k` is the first to fail: begin, queries 0..k, rollback, nothing else, result false |
| Database.AllSucceedCommits | Concepts/OOP/abstraction.cpp:29-38 | when all queries succeed: begin, every query in order, commit, and the result of `commit` |
| Database.TransactionResult | Concepts/OOP/abstraction.cpp:24-39 | the transaction succeeds exactly when the connection is open, every query succeeds and the commit succeeds |
| Database.Connection.constructor | Concepts/OOP/abstraction.cpp:56 | a new connection is closed, with no error and nothing printed |
| Database.Connection.Connect | Concepts/OOP/abstraction.cpp:58-65 | opens the connection, clears the error, keeps the string on PostgreSQL only, and logs the connect |
| Database.Connection.Disconnect | Concepts/OOP/abstraction.cpp:67-72 | closes the connection; logs only when it was open |
| Database.Connection.Execute | Concepts/OOP/abstraction.cpp:74-83 | succeeds exactly on an open connection; on a closed one it records "Not connected to database" and logs nothing |
| Database.Connection.GetLastError | Concepts/OOP/abstraction.cpp:85-87 | returns the last error |
| Database.Connection.IsConnected | Concepts/OOP/abstraction.cpp:89-91 | returns the connection state |
| Database.Connection.BeginTransaction | Concepts/OOP/abstraction.cpp:93-155 | logs the vendor's own begin statement (`BeginStatement`): BEGIN TRANSACTION on PostgreSQL (lines 93-96), START TRANSACTION in the MySQL override (lines 151-155); succeeds |
| Database.Connection.CommitTransaction | Concepts/OOP/abstraction.cpp:99-102 | logs COMMIT and succeeds |
| Database.Connection.RollbackTransaction | Concepts/OOP/abstraction.cpp:104-107 | logs ROLLBACK and succeeds |
| Database.Connection.ExecuteTransaction | Concepts/OOP/abstraction.cpp:24-39 | result and log are those of the template method, with every `execute` and `commit` succeeding; the error is unchanged |
| Database.TestDatabase | Concepts/OOP/abstraction.cpp:547-573 | the demonstration commits and prints connect, query, begin, three queries, commit, disconnect |
| Files.RemoveFirst | Concepts/OOP/abstraction.cpp:430-437 | removing a present name shortens the list by one; an absent name leaves its length |
| Files.IndexOf | Concepts/OOP/abstraction.cpp:432 | `std::find` returns a position holding the name, or the end exactly when the name is absent |
| Files.IndexOfIsFirst | Concepts/OOP/abstraction.cpp:432 | no earlier position holds the name |
| Files.RemoveFirstErasesFound | Concepts/OOP/abstraction.cpp:432-435 | erasing at the found position removes the first occurrence |
| Files.RemoveFirstCount | Concepts/OOP/abstraction.cpp:430-437 | a present name loses exactly one copy and nothing else changes; an absent name leaves the list as it was |
| Files.CreateThenDelete | Concepts/OOP/abstraction.cpp:424-437 | creating a new file and deleting it restores the list |
| Files.FileManager.constructor | Concepts/OOP/abstraction.cpp:422 | the current directory is "." and the list is empty |
| Files.FileManager.CreateFile | Concepts/OOP/abstraction.cpp:424-428 | appends the name and succeeds |
| Files.FileManager.Find | Concepts/OOP/abstraction.cpp:432 | the scan loop returns `IndexOf` |
| Files.FileManager.DeleteFile | Concepts/OOP/abstraction.cpp:430-437 | removes the first occurrence, if any, and succeeds either way |
| Files.FileManager.CopyFile | Concepts/OOP/abstraction.cpp:439-442 | succeeds |
| Files.FileManager.ListFiles | Concepts/OOP/abstraction.cpp:444-447 | the same three names for every directory |
| Files.FileManager.FileExists | Concepts/OOP/abstraction.cpp:449-451 | true exactly when the name is in the list |
| Files.FileManager.GetFileSize | Concepts/OOP/abstraction.cpp:453-455 | a hundred per character of the name |
| Files.TestFileManager | Concepts/OOP/abstraction.cpp:618-640 | the demonstration finds test.txt, reports 800 and the three names, and leaves only data.txt |
| Messages.TypeCode | Concepts/IPC/message_queues.cpp:16-21 | the type values are 1 to 4 |
| Messages.CLength | Concepts/IPC/message_queues.cpp:34 | the C string of the content ends at its first NUL, or at its end |
| Messages.CLengthIsFirst | Concepts/IPC/message_queues.cpp:34 | no earlier character is a NUL |
| Messages.StrNCopy | Concepts/IPC/message_queues.cpp:34 | `strncpy` writes exactly `n` characters |
| Messages.StrNCopyKeeps | Concepts/IPC/message_queues.cpp:34 | a short content without NUL is copied whole and padded with NULs |
| Messages.StrNCopyTruncates | Concepts/IPC/message_queues.cpp:34 | a long content is cut to `n` characters with no terminating NUL |
| Messages.StrNCopyInto | Concepts/IPC/message_queues.cpp:34 | the copy-then-pad loops write `StrNCopy` into the first `n` slots and leave the rest |
| Messages.Shown | Concepts/IPC/message_queues.cpp:38-40 | `toString` reads past the buffer exactly when the size exceeds it, and otherwise has the recorded size |
| Messages.ContentRoundTrip | Concepts/IPC/message_queues.cpp:32-40 | content of at most 255 characters without NUL comes back unchanged from `toString` |
| Messages.NulCutsContent | Concepts/IPC/message_queues.cpp:32-40 | a NUL inside the content makes `toString` differ from the content |
| Messages.ClampedSize | Concepts/IPC/message_queues.cpp:35 | the clamped size is at most 255 and at most the content length, and it is the length when that fits |
| Messages.AsWrittenOverreads | Concepts/IPC/message_queues.cpp:35 | a 256-character content comes back as its first 255 characters followed by the unwritten byte, whatever that byte holds, and a 300-character one reads past the buffer |
| Messages.ClampedShowsPrefix | Concepts/IPC/message_queues.cpp:34-40 | with the size clamped, `toString` is the content cut to 255 characters |
| Messages.Message.ToString | Concepts/IPC/message_queues.cpp:38-40 | fails exactly when the size exceeds the buffer, and otherwise is the first `data_size` characters of the buffer |
| Messages.Message.Empty | Concepts/IPC/message_queues.cpp:28-30 | TEXT, number 0, size 0, an all-NUL buffer, and `toString` is "" |
| Messages.Message.constructor | Concepts/IPC/message_queues.cpp:32-36 | type and number are stored unchanged, the first 255 slots are `strncpy`'s, the size is the full content length, and short content round-trips |
| Messages.Message.Clamped | Concepts/IPC/message_queues.cpp:32-36 | as the content constructor, but with the clamped size, so `toString` is always the copied prefix |

## Left out

- Sockets, `send`/`recv`, threads, the server and client loops and all console output are left out, except the database log. These are I/O.
- `generate_accept_key` and `base64_encode` are left out: they call OpenSSL (SHA-1 and the BIO base64 encoder), which is not part of this model. The accept key is a parameter of `HandshakeResponse`.
- `NetworkLayers.SendPacket`: the destination is not used, as in the code. `EthernetDevice` is modelled by its answers: `sendRawData` returns true and `receiveRawData` returns the bytes 01 02 03 04.
- The FileManager's pimpl plumbing is left out: the `unique_ptr`, the forwarding methods and the move operations. A moved-from `FileManager` has a null `pImpl_`, and that case is not modelled. The `currentDirectory_` field is modelled but never read, as in the code.
- `Stacks`: Dafny has no virtual dispatch here. The inherited `pushMultiple`/`popMultiple` are written once in each stack class, and the `DatabaseConnection` implementations are one class with a `vendor` field.
- `Files.FileManager.GetFileSize`: the `size_t` product wraps at 2^64. The model does not wrap, because no name can be long enough for the product to wrap.
- `Messages.Message.constructor`: `data[255]` is never written by the content constructor. Dafny arrays must be initialised, so the body fills it. The contract says nothing about it, and `AsWrittenOverreads` holds for every value it could have.
- `Messages`: the `MessageQueueManager` and the request-response code are left out. They use `mq_*`, `fork` and signals.
- `WebSocketFrames.DecodeFrame`: when the mask bit is clear, `masking_key` is left uninitialised by the C++ code. The model sets it to 0.
- `WebSocketFrames.DecodeFrame` checks the payload bound without wrap-around, the corrected check of the second finding. The C++ sum wraps at 2^64, and the `resize` that follows would then throw `length_error`; that path is modelled only by `PayloadCheckAsWritten` and `WrappedPayloadCheckPasses`.
- `Database`: each printed line names the vendor (`PostgreSQL: BEGIN TRANSACTION`, `MySQL executing: ...`). The log leaves that prefix out, because a log belongs to one connection of one vendor.
- `NetworkLayers.DemoRequestSizes`: the expected-output comment at abstraction.cpp:758 and :763 says the requests are 26 and 63 bytes. The code as written sends 27 and 65 bytes, and the model follows the code.
- `Database.Connection.ExecuteTransaction`: the concrete `execute` cannot fail inside a transaction, because it is only reached on an open connection. So the rollback branch is dead there. Rollback on failure is proved for the template method over arbitrary `execute` outcomes (`Database.FirstFailureRollsBack`).

## Findings

| source | as written | input that shows it | evidently intended | confidence | as-written member | corrected member |
|---|---|---|---|---|---|---|
| Concepts/Networking/web_socket.cpp:432 | `sendMessage` inserts the masking key at index 2, before the extended payload length | any message of 126 to 65535 bytes: the key bytes 0x12 0x34 are read as the length 0x1234 | the key follows the extended length (section 5.2 of RFC 6455) | high, not executed | WebSocketFrames.LongClientFrameMisparsed | WebSocketFrames.MaskedFrameRoundTrip |
| Concepts/Networking/web_socket.cpp:432 | the same insertion, for a message with an 8-byte extended length | any message of 65536 bytes or more: the key and the first four length bytes announce at least 0x1234_5678_0000_0000 bytes, so the frame fails as too short | the key follows the extended length (section 5.2 of RFC 6455) | high, not executed | WebSocketFrames.HugeClientFrameMisparsed | WebSocketFrames.MaskedFrameRoundTrip |
| Concepts/Networking/web_socket.cpp:167 | `data.size() < offset + frame.payload_length` is computed in 64 bits and wraps | the 10 bytes 0x82 127 0xFF×8: the sum wraps to 9, so the check passes and the payload resize asks for 2^64 - 1 bytes | reject with "Frame too short for payload" | high, not executed | WebSocketFrames.WrappedPayloadCheckPasses | WebSocketFrames.DecodeFrame |
| Concepts/IPC/message_queues.cpp:35 | `data_size = content.length()` is not clamped to what `strncpy` copied | a 256-character content: `toString` returns the unwritten `data[255]`; a 300-character one reads past the buffer | `data_size = min(content.length(), 255)` | high, not executed | Messages.AsWrittenOverreads | Messages.ClampedShowsPrefix |
