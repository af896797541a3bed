# ESP32 WiFi co-processor control protocol, modelled in Dafny

This project models the driver that a K210 board uses to talk to an ESP32
WiFi co-processor (`asp/OBJ/K210_GCC/WIFI/esp32_socket.c` and its header).
The driver sends request frames over SPI or I2C and waits for reply frames.

- **Request frame:** `START cmd count {length data}* END`, zero-padded to a
  multiple of four bytes.
- **Reply frame:** the same layout, with the reply flag `0x80` set in the
  opcode byte.

On top of that exchange the driver builds the session operations: firmware
version, time, credentials, WLAN status and the connect loop, host lookup,
and socket open/connect/write/available/read/close, plus init and deinit of
the handle.

The model has seven modules:

- `Wrappers`: `Option`.
- `Esp32Defs`: the opcode, sentinel, flag, socket-state, WLAN-state and mode
  enumerations of the header. It also holds the C integer widths and the
  arithmetic equivalents of `cmd & ~REPLY_FLAG` and `cmd | REPLY_FLAG`.
- `Esp32Codec`: the wire format as functions.
  - The padded frame length.
  - `Encode`, the bytes the driver writes.
  - `ParseReply`, what the reply reader accepts from a stream of incoming
    bytes. It covers the search for DUMMY (on I2C) and START with ERR
    aborting, the opcode and count checks, the 1- or 2-byte big-endian
    parameter lengths and the END check.
  - The round trip between the two, and every way a reply fails.
- `Esp32Frame`: the frame writer of `esp32_send_command` as methods over an
  `array<uint8>` with loop invariants. Each is proved to write exactly
  `Encode` into a zeroed buffer.
- `Esp32Link`: the environment `Env`. It holds the bytes the co-processor
  will clock out, one ready-line handshake per chip select, the largest
  malloc that succeeds, the log of frames written, the millisecond clock and
  the count of reset pulses. Chip select, send, receive, the exchange and
  the reset are specified over it.
- `Esp32Session`: every session operation as a function of a `Link`, and
  the lemmas about the two polling loops and about single operations
  against a scripted co-processor.
  - A `Link` is a pair of transport services: one command exchange answered
    by one reply parameter, and the module reset.
  - `Wire` is the driver's own link.
- `Esp32Socket`: the handle as the class `Esp32`. It holds the fields of
  `ESP32_Handle_t`, the driver's globals (pins, `time`, the 256-byte
  `lc_send_buf` as an array, `lc_buf_flag`) and the environment.
  - Every driver function is a method that changes those fields.
  - Each method is proved equal to the specification function of
    `Esp32Codec`, `Esp32Link` or `Esp32Session` for the handle's link.
  - `Valid()` keeps two facts: the handle's link is the wire of its bus
    and reset pin, and the scratch buffer is all zeros between calls.

Outside the driver, the model treats these as parameters: the SPI and I2C
transfers, the GPIO pins, `get_millis` and `dly_tsk`. It sees them only
through `Env`.

## Model

| member | source | states |
|---|---|---|
| Esp32Defs.CommandsBelowReplyFlag | asp/OBJ/K210_GCC/WIFI/esp32_socket.h:88-172 | every request opcode lies in 0x10..0x54 below REPLY_FLAG; clearing the flag leaves it unchanged, setting it gives 0x90..0xD4, never a request opcode, and clearing again gives the opcode back |
| Esp32Defs.SentinelsAreReserved | asp/OBJ/K210_GCC/WIFI/esp32_socket.h:88-167 | DUMMY, START, END and ERR are four distinct bytes; none is a request opcode or the reply opcode of one |
| Esp32Defs.ReplyFlagOnLowByte | asp/OBJ/K210_GCC/WIFI/esp32_socket.h:169-172 | below 0x80 clearing the reply flag is the identity and setting it adds 0x80 |
| Esp32Defs.ReplyFlagOnHighByte | asp/OBJ/K210_GCC/WIFI/esp32_socket.h:169-172 | from 0x80 up clearing the flag takes 0x80 away and setting it is the identity |
| Esp32Defs.Int8 | asp/OBJ/K210_GCC/WIFI/esp32_socket.c:916 | the `(int8_t)` cast of a byte lies in -128..127 |
| Esp32Defs.Int8KeepsBits | asp/OBJ/K210_GCC/WIFI/esp32_socket.c:916 | the cast keeps the bit pattern: the byte is recovered modulo 256 and distinct bytes give distinct values |
| Esp32Defs.SocketStatesAreSmall | asp/OBJ/K210_GCC/WIFI/esp32_socket.h:174-186 | the socket states are exactly 0..10, ESTABLISHED is 4, and the error value 0xFF is not a state |
| Esp32Defs.WlanStatesShape | asp/OBJ/K210_GCC/WIFI/esp32_socket.h:188-202 | the WLAN states are 0..9, 0xFE and 0xFF; CONNECTED 3, CONNECT_FAILED 4, NO_SSID_AVAIL 1; NO_SHIELD and NO_MODULE read as -1 and -2 through the int8 cast |
| Esp32Defs.ModesShape | asp/OBJ/K210_GCC/WIFI/esp32_socket.h:204-210 | the modes are 0..3 and UDP is exactly mode 1 |
| Esp32Codec.RoundUp4 | asp/OBJ/K210_GCC/WIFI/esp32_socket.c:399-400 | the result is a multiple of four, at least n and less than n + 4 |
| Esp32Codec.FrameLength | asp/OBJ/K210_GCC/WIFI/esp32_socket.c:386-400 | the packet length is a multiple of four, at least 4, and lies in [4 + payload, 8 + payload) |
| Esp32Codec.LengthField | asp/OBJ/K210_GCC/WIFI/esp32_socket.c:436-442 | a wide length field is two bytes, high byte first, carrying the length modulo 2^16; a narrow one is one byte, the length modulo 2^8 |
| Esp32Codec.EncodeParams | asp/OBJ/K210_GCC/WIFI/esp32_socket.c:429-446 | the encoded parameters take exactly the payload size the length computation counts |
| Esp32Codec.Encode | asp/OBJ/K210_GCC/WIFI/esp32_socket.c:420-447 | the frame has the padded length; byte 0 is START, byte 1 the opcode with the reply flag cleared, byte 2 the count modulo 256; END sits right after the last parameter byte, below the padded length, and only zeros follow it |
| Esp32Codec.EncodedParamAt | asp/OBJ/K210_GCC/WIFI/esp32_socket.c:432-445 | parameter i sits in the payload at the offset of the parameters before it, as its length field followed by its data |
| Esp32Codec.PayloadSizeAppend | asp/OBJ/K210_GCC/WIFI/esp32_socket.c:391-397 | size and encoding of a parameter list distribute over concatenation |
| Esp32Codec.Next | asp/OBJ/K210_GCC/WIFI/esp32_socket.c:499-508 | one read gives the front byte and drops it; past the end of the stream it gives the idle byte 0xFF and the stream stays empty |
| Esp32Codec.Take | asp/OBJ/K210_GCC/WIFI/esp32_socket.c:513-526 | a read of n bytes yields exactly n bytes, and the front of the stream when it is long enough |
| Esp32Codec.WaitFor | asp/OBJ/K210_GCC/WIFI/esp32_socket.c:533-552 | the search reads at most its window of bytes and leaves the rest of the stream unread; when it succeeds (for a wanted byte other than 0xFF) the last byte it read is the wanted one |
| Esp32Codec.ReadParam | asp/OBJ/K210_GCC/WIFI/esp32_socket.c:642-653 | a parameter read from the stream has a length its length field can carry |
| Esp32Codec.ReadParams | asp/OBJ/K210_GCC/WIFI/esp32_socket.c:639-654 | reading n parameters yields n parameters whose lengths fit the width |
| Esp32Codec.ReadCount | asp/OBJ/K210_GCC/WIFI/esp32_socket.c:618-631 | with an expected count only that count is accepted; without one the count is one byte |
| Esp32Codec.ReadBody | asp/OBJ/K210_GCC/WIFI/esp32_socket.c:639-661 | an accepted body (parameters, then END) has exactly n parameters, each with a length its width can carry |
| Esp32Codec.SyncToStart | asp/OBJ/K210_GCC/WIFI/esp32_socket.c:593-609 | reaching START reads at most one window of bytes (SPI) or two (I2C, DUMMY first) and leaves the rest unread; on success the last byte read is START |
| Esp32Codec.ParseAfterStart | asp/OBJ/K210_GCC/WIFI/esp32_socket.c:611-666 | after START, an accepted reply has the expected number of parameters, each fitting the width |
| Esp32Codec.ParseReply | asp/OBJ/K210_GCC/WIFI/esp32_socket.c:593-666 | an accepted reply has exactly the expected number of parameters, each within the width |
| Esp32Codec.ParseReplyRoundTrip | asp/OBJ/K210_GCC/WIFI/esp32_socket.c:593-666 | a reply frame START, `cmd\|0x80`, count, the parameters, END, after tolerable leading bytes (on I2C noise, DUMMY, noise), yields exactly those parameters and leaves the rest of the stream |
| Esp32Codec.EchoRoundTrip | asp/OBJ/K210_GCC/WIFI/esp32_socket.c:420-447 | the encoder and the parser share one wire format: a request frame with the reply flag set reads back as its own parameters, and only the padding remains |
| Esp32Codec.EncodeIsPaddedFrame | asp/OBJ/K210_GCC/WIFI/esp32_socket.c:399-447 | the request frame is the unpadded frame followed by zeros up to the padded length |
| Esp32Codec.WaitForSkips | asp/OBJ/K210_GCC/WIFI/esp32_socket.c:533-552 | the search for a byte passes over bytes that are neither it nor ERR and stops right after it |
| Esp32Codec.ErrAhead | asp/OBJ/K210_GCC/WIFI/esp32_socket.c:542-546 | an ERR byte reached before the wanted byte makes the search fail |
| Esp32Codec.WaitForAbsent | asp/OBJ/K210_GCC/WIFI/esp32_socket.c:538-551 | a wanted byte absent from the window makes the search fail |
| Esp32Codec.SyncThroughLead | asp/OBJ/K210_GCC/WIFI/esp32_socket.c:593-609 | tolerable leading bytes bring the reader to just after START |
| Esp32Codec.ReadParamsEncoded | asp/OBJ/K210_GCC/WIFI/esp32_socket.c:639-654 | reading back encoded parameters of fitting length gives exactly those parameters and the rest |
| Esp32Codec.ErrBeforeStartFails | asp/OBJ/K210_GCC/WIFI/esp32_socket.c:593-609 | on either bus, an ERR byte before START (over I2C after the DUMMY byte) makes the reply fail |
| Esp32Codec.ErrBeforeDummyFails | asp/OBJ/K210_GCC/WIFI/esp32_socket.c:593-602 | over I2C, an ERR byte before the DUMMY byte makes the reply fail |
| Esp32Codec.WrongOpcodeFails | asp/OBJ/K210_GCC/WIFI/esp32_socket.c:611-616 | an opcode byte other than `cmd\|0x80` makes the reply fail |
| Esp32Codec.WrongCountFails | asp/OBJ/K210_GCC/WIFI/esp32_socket.c:618-627 | a count byte other than the low byte of the expected count makes the reply fail |
| Esp32Codec.CorruptEndFails | asp/OBJ/K210_GCC/WIFI/esp32_socket.c:656-661 | a well-formed reply frame with any byte other than END where END belongs makes the reply fail |
| Esp32Codec.I2cNeedsDummy | asp/OBJ/K210_GCC/WIFI/esp32_socket.c:593-602 | on I2C a reply without DUMMY in the search window fails |
| Esp32Frame.PacketLength | asp/OBJ/K210_GCC/WIFI/esp32_socket.c:386-400 | the counting loop and the padding loop compute the padded frame length |
| Esp32Frame.WriteParam | asp/OBJ/K210_GCC/WIFI/esp32_socket.c:436-444 | writing one parameter at `ptr` of a zeroed tail puts its length field and data there and moves `ptr` past them |
| Esp32Frame.WriteParams | asp/OBJ/K210_GCC/WIFI/esp32_socket.c:429-446 | the parameter loop writes exactly the encoded parameters after the header and leaves zeros after them |
| Esp32Frame.WriteHeader | asp/OBJ/K210_GCC/WIFI/esp32_socket.c:420-425 | a zeroed buffer gets START, the opcode with the reply flag cleared and the count in its first three bytes, and stays zero after them |
| Esp32Frame.WriteEnd | asp/OBJ/K210_GCC/WIFI/esp32_socket.c:447 | END goes right after the written bytes, below the padded length, and only zeros follow |
| Esp32Frame.WriteFrame | asp/OBJ/K210_GCC/WIFI/esp32_socket.c:420-447 | writing into a zeroed buffer leaves exactly the encoding of the frame, followed by zeros |
| Esp32Link.NextHandshake | asp/OBJ/K210_GCC/WIFI/esp32_socket.c:326-373 | each chip select takes the next scripted handshake; an exhausted script answers at once |
| Esp32Link.ReadyWait | asp/OBJ/K210_GCC/WIFI/esp32_socket.c:326-346 | the ready wait polls at most 10000 ms and succeeds exactly when it stopped early, having seen the line low |
| Esp32Link.ActiveWait | asp/OBJ/K210_GCC/WIFI/esp32_socket.c:353-373 | the active wait polls at most 1000 ms and succeeds exactly when it stopped early, having seen the line high |
| Esp32Link.SelectTimedOutAsWritten | asp/OBJ/K210_GCC/WIFI/esp32_socket.c:452-455 | the test as written can fire only when the line stayed low for more than 1000 ms |
| Esp32Link.SelectTimedOut | asp/OBJ/K210_GCC/WIFI/esp32_socket.c:583-586 | the corrected test fires exactly when the line stays low for the whole 1000 ms window |
| Esp32Link.SelectTimeoutAsWrittenNeverFires | asp/OBJ/K210_GCC/WIFI/esp32_socket.c:452-455 | as written, the select timeout test never fires, even for a line that never goes high |
| Esp32Link.SelectTimedOutIffActiveWaitFails | asp/OBJ/K210_GCC/WIFI/esp32_socket.c:452-455 | the corrected test fires exactly when the active wait gives up |
| Esp32Link.Select | asp/OBJ/K210_GCC/WIFI/esp32_socket.c:449-455 | chip select changes only the handshake script and the clock; over SPI it charges both waits to the clock, over I2C it is immediate and cannot fail |
| Esp32Link.Send | asp/OBJ/K210_GCC/WIFI/esp32_socket.c:384-493 | the send returns 0 or -1; it succeeds exactly when the encoded frame is appended to the written frames, and fails unchanged when the buffer cannot be had; it never reads bytes, allocates lasting heap or resets |
| Esp32Link.SelectAsWritten | asp/OBJ/K210_GCC/WIFI/esp32_socket.c:449-455 | chip select with the test as written always succeeds, with the same handshakes and clock as the corrected select |
| Esp32Link.SendAsWritten | asp/OBJ/K210_GCC/WIFI/esp32_socket.c:384-493 | with the test as written the send fails only when no buffer can be had; otherwise it writes the frame after the select |
| Esp32Link.SendAsWrittenIgnoresStuckLine | asp/OBJ/K210_GCC/WIFI/esp32_socket.c:452-469 | as written, a ready line that never goes high still gets the frame written and a 0 returned, where the corrected send returns -1 and writes nothing |
| Esp32Link.Receive | asp/OBJ/K210_GCC/WIFI/esp32_socket.c:575-666 | an accepted reply has the expected count of fitting parameters; receiving writes nothing and never moves the clock back |
| Esp32Link.Exchange | asp/OBJ/K210_GCC/WIFI/esp32_socket.c:672-683 | the reply count is the caller's or one; at most the one request frame is written, and a failed send does not stop the receive |
| Esp32Link.Reset | asp/OBJ/K210_GCC/WIFI/esp32_socket.c:299-319 | a wired reset pin pulses once and takes 1500 ms; without one a soft-reset frame may be sent and the wait is at least 1500 ms |
| Esp32Link.HasResetPinRange | asp/OBJ/K210_GCC/WIFI/esp32_socket.c:306 | `(int8_t)rst_num > 0` holds exactly for pins 1..127 |
| Esp32Link.ExchangeScripted | asp/OBJ/K210_GCC/WIFI/esp32_socket.c:672-683 | a prompt co-processor clocking out a one-parameter reply makes the exchange return that parameter, consume the reply and log the request |
| Esp32Link.SilentModuleFails | asp/OBJ/K210_GCC/WIFI/esp32_socket.c:575-666 | a co-processor that sends nothing makes every exchange fail |
| Esp32Link.ExchangeIgnoresSendFailure | asp/OBJ/K210_GCC/WIFI/esp32_socket.c:681-682 | when the send cannot get a buffer the reply is still awaited and nothing is written |
| Esp32Link.SendSelectTimeout | asp/OBJ/K210_GCC/WIFI/esp32_socket.c:452-469 | a ready line that never goes high makes the send fail after the full 1000 ms window and write nothing |
| Esp32Session.Ask | asp/OBJ/K210_GCC/WIFI/esp32_socket.c:672-683 | the first reply parameter, within the width; at most the request frame is written; no heap, no reset, no clock going back |
| Esp32Session.WireImplements | asp/OBJ/K210_GCC/WIFI/esp32_socket.c:672-683 | the driver's link `Wire`: its exchange is the single-reply send-and-receive, its reset is esp32_reset (esp32_socket.c:299-319) |
| Esp32Session.ImplementsKeepsTime | asp/OBJ/K210_GCC/WIFI/esp32_socket.c:672-683 | any link that behaves as the wire never moves the clock backwards |
| Esp32Session.WireKeepsTime | asp/OBJ/K210_GCC/WIFI/esp32_socket.c:326-373 | the driver's link never moves the clock back, and against a prompt co-processor takes no time and stays prompt |
| Esp32Session.AskScripted | asp/OBJ/K210_GCC/WIFI/esp32_socket.c:672-683 | a scripted one-parameter reply is returned and consumed and the request is logged |
| Esp32Session.LE16 | asp/OBJ/K210_GCC/WIFI/esp32_socket.c:1260 | the value has low byte `p[0]` and high byte `p[1]` |
| Esp32Session.LE32 | asp/OBJ/K210_GCC/WIFI/esp32_socket.c:801-805 | the 32-bit `time` read in memory order has low byte `t[0]` and high byte `t[3]` |
| Esp32Session.PortBytes | asp/OBJ/K210_GCC/WIFI/esp32_socket.c:1105-1203 | the port parameter is two bytes, high byte first, that recompose the port |
| Esp32Session.SizeBytes | asp/OBJ/K210_GCC/WIFI/esp32_socket.c:1304-1332 | the size parameter is two bytes, low byte first, that recompose the size |
| Esp32Session.CStr | asp/OBJ/K210_GCC/WIFI/esp32_socket.c:845-867 | what strlen sees: a prefix of the buffer with no NUL, followed by a NUL when it ends early |
| Esp32Session.CStrOfTerminated | asp/OBJ/K210_GCC/WIFI/esp32_socket.c:845-867 | a NUL-terminated string gives back exactly its characters |
| Esp32Session.Ack | asp/OBJ/K210_GCC/WIFI/esp32_socket.c:845-867 | the verdict is 0 exactly when the reply's first byte is 1, else -1 |
| Esp32Session.FirmwareVersion | asp/OBJ/K210_GCC/WIFI/esp32_socket.c:749-767 | E_OK exactly when there is a reply, with the reply bytes (cut to the low byte of the length) and a NUL; E_SYS and nothing otherwise |
| Esp32Session.SetDebug | asp/OBJ/K210_GCC/WIFI/esp32_socket.c:772-783 | one SET_DEBUG request with the debug byte as its only parameter and 8-bit lengths; the reply is dropped |
| Esp32Session.SetCertificate | asp/OBJ/K210_GCC/WIFI/esp32_socket.c:811-822 | one SET_CLIENT_CERT request carrying the certificate up to its first NUL, with 16-bit lengths; the reply is dropped |
| Esp32Session.SetPrivateKey | asp/OBJ/K210_GCC/WIFI/esp32_socket.c:827-838 | one SET_CERT_KEY request carrying the key up to its first NUL, with 16-bit lengths; the reply is dropped |
| Esp32Session.GetTime | asp/OBJ/K210_GCC/WIFI/esp32_socket.c:787-806 | on failure 0 and `time` unchanged; on success the first reply bytes (up to four) overwrite `time` and the result is `time` read as a little-endian 32-bit value |
| Esp32Session.SetNetwork | asp/OBJ/K210_GCC/WIFI/esp32_socket.c:845-867 | the SSID goes up as its strlen bytes; the result is 0 exactly when the reply acknowledges, -1 otherwise |
| Esp32Session.SetPassphrase | asp/OBJ/K210_GCC/WIFI/esp32_socket.c:874-895 | SSID and passphrase go up as two strings; 0 exactly when acknowledged, -1 otherwise |
| Esp32Session.Status | asp/OBJ/K210_GCC/WIFI/esp32_socket.c:905-922 | -2 exactly on a failed exchange or NO_MODULE, -1 exactly on NO_SHIELD; otherwise the status byte read as int8 |
| Esp32Session.IsConnected | asp/OBJ/K210_GCC/WIFI/esp32_socket.c:929-943 | 0 exactly when CONNECTED, 2 exactly on a status of -2, after which the module is reset; 1 otherwise |
| Esp32Session.FinalConnectCode | asp/OBJ/K210_GCC/WIFI/esp32_socket.c:976-994 | -3 exactly for status 4, 5 or 6; -4 exactly for 1; -5 for everything else, CONNECTED included |
| Esp32Session.Join | asp/OBJ/K210_GCC/WIFI/esp32_socket.c:953-956 | exactly one credentials request: the passphrase request when there is a passphrase, otherwise the network request; its verdict is ignored |
| Esp32Session.ConnectPolls | asp/OBJ/K210_GCC/WIFI/esp32_socket.c:960-975 | a verdict of the loop is 0, -1 or -2; when every poll runs out the state is that after the delayed polls |
| Esp32Session.Connect | asp/OBJ/K210_GCC/WIFI/esp32_socket.c:950-995 | the result lies in -5..0 and is -2..0 exactly when a poll of the loop gave a verdict |
| Esp32Session.Disconnect | asp/OBJ/K210_GCC/WIFI/esp32_socket.c:1000-1010 | -1 exactly when there is no reply or the reply byte is 0xFF; otherwise the reply byte read as int8 |
| Esp32Session.ConnectSkipsPolls | asp/OBJ/K210_GCC/WIFI/esp32_socket.c:960-975 | polls that keep polling are passed over: the loop continues from the state after them with fewer polls left |
| Esp32Session.ConnectAfterDelays | asp/OBJ/K210_GCC/WIFI/esp32_socket.c:960-975 | a first CONNECTED on poll n+1 returns 0 with the state of that poll, after exactly n delays of 1000 ms |
| Esp32Session.ConnectFailsAfterDelays | asp/OBJ/K210_GCC/WIFI/esp32_socket.c:960-975 | a first CONNECT_FAILED on poll n+1 returns -2 with the state of that poll |
| Esp32Session.ConnectResetsAfterDelays | asp/OBJ/K210_GCC/WIFI/esp32_socket.c:962-969 | a status of -1 on poll n+1 resets the module and returns -1 |
| Esp32Session.ConnectPollsExhausted | asp/OBJ/K210_GCC/WIFI/esp32_socket.c:960-975 | the loop runs out without a verdict exactly when every one of its polls kept polling |
| Esp32Session.ConnectFinalCheck | asp/OBJ/K210_GCC/WIFI/esp32_socket.c:976-994 | after all polls the result is the final code of one more status query, and a late CONNECTED gives -5 |
| Esp32Session.StatusOfReply | asp/OBJ/K210_GCC/WIFI/esp32_socket.c:905-922 | a scripted status reply byte b gives `(int8_t)b` and consumes the reply |
| Esp32Session.ConnectNoShieldResets | asp/OBJ/K210_GCC/WIFI/esp32_socket.c:962-969 | through the wire, a NO_SHIELD reply on poll n+1, after n polls that kept polling and n delays of 1000 ms, resets the module and returns -1; with a reset pin one more pulse is counted |
| Esp32Session.ConnectSilentModule | asp/OBJ/K210_GCC/WIFI/esp32_socket.c:950-995 | a silent co-processor makes connect return -5, without any reset, after exactly `retry_times` seconds of delay |
| Esp32Session.GetHostByName | asp/OBJ/K210_GCC/WIFI/esp32_socket.c:1017-1065 | -2 on a failed request, -1 when it is not acknowledged (and nothing more is sent); otherwise the fetch is sent: 0 with the fetched parameter as the address when it answers, -2 with no address when it does not |
| Esp32Session.HostLookupRejected | asp/OBJ/K210_GCC/WIFI/esp32_socket.c:1032-1038 | a rejected request returns -1 and never sends the fetch command |
| Esp32Session.GetSocket | asp/OBJ/K210_GCC/WIFI/esp32_socket.c:1072-1096 | the reply's first byte, or 0xFF on failure |
| Esp32Session.OpenParams | asp/OBJ/K210_GCC/WIFI/esp32_socket.c:1105-1203 | a host name goes up as five parameters (name, four zeros, port, socket, mode), an IP address as four (the address, port, socket, mode), the port high byte first |
| Esp32Session.SocketOpenAddressFrame | asp/OBJ/K210_GCC/WIFI/esp32_socket.c:1105-1203 | the byte-exact request frame for opening a socket to an IP address |
| Esp32Session.SocketOpen | asp/OBJ/K210_GCC/WIFI/esp32_socket.c:1105-1203 | 0 exactly when the co-processor acknowledges the open, -1 otherwise |
| Esp32Session.SocketStatus | asp/OBJ/K210_GCC/WIFI/esp32_socket.c:1213-1232 | the reply's status byte; 0xFF exactly on failure or a 0xFF reply |
| Esp32Session.SocketConnected | asp/OBJ/K210_GCC/WIFI/esp32_socket.c:1239-1242 | 1 exactly when the socket is ESTABLISHED, 0 otherwise |
| Esp32Session.SocketConnectPolls | asp/OBJ/K210_GCC/WIFI/esp32_socket.c:1355-1368 | the establish-poll returns 0, -2 or -3, never moves the clock back, and -3 only once the 3000 ms window has passed |
| Esp32Session.SocketConnect | asp/OBJ/K210_GCC/WIFI/esp32_socket.c:1341-1369 | -1 exactly when the open fails; UDP returns 0 right after a successful open; any other mode runs the establish-poll from the time after the open |
| Esp32Session.SocketSkipsPolls | asp/OBJ/K210_GCC/WIFI/esp32_socket.c:1357-1367 | polls inside the window that find the socket still opening are passed over |
| Esp32Session.SocketConnectEstablishes | asp/OBJ/K210_GCC/WIFI/esp32_socket.c:1357-1361 | an ESTABLISHED status inside the window returns 0 with the state of that poll |
| Esp32Session.SocketConnectFails | asp/OBJ/K210_GCC/WIFI/esp32_socket.c:1362-1365 | a status of 0xFF (error) on poll n+1 inside the window returns -2 with the state of that poll |
| Esp32Session.SocketConnectWindowExpires | asp/OBJ/K210_GCC/WIFI/esp32_socket.c:1357-1368 | reaching the end of the window while still opening returns -3 |
| Esp32Session.SocketConnectGivesUp | asp/OBJ/K210_GCC/WIFI/esp32_socket.c:1355-1368 | against an instant co-processor, 30 polls 100 ms apart that stay opening end in -3 exactly 3000 ms later |
| Esp32Session.SocketConnectPollsSilent | asp/OBJ/K210_GCC/WIFI/esp32_socket.c:1362-1365 | a silent co-processor makes the establish-poll return -2 |
| Esp32Session.SocketWrite | asp/OBJ/K210_GCC/WIFI/esp32_socket.c:1249-1271 | the little-endian count of the reply, 0 on failure, below 2^16 |
| Esp32Session.SocketWriteOfReply | asp/OBJ/K210_GCC/WIFI/esp32_socket.c:1249-1271 | a reply [lo, hi] gives `lo + 256 * hi` |
| Esp32Session.SocketAvailable | asp/OBJ/K210_GCC/WIFI/esp32_socket.c:1276-1299 | -1 exactly on failure, otherwise the little-endian count of the reply |
| Esp32Session.SocketRead | asp/OBJ/K210_GCC/WIFI/esp32_socket.c:1304-1332 | -1 exactly on failure; otherwise the result is the number of bytes copied, and those are the reply parameter |
| Esp32Session.SocketReadOfReply | asp/OBJ/K210_GCC/WIFI/esp32_socket.c:1304-1332 | with the size sent low byte first and 16-bit reply lengths, a scripted reply of `data` returns its length and copies exactly `data` |
| Esp32Session.SocketClose | asp/OBJ/K210_GCC/WIFI/esp32_socket.c:1376-1397 | 0 exactly when the co-processor acknowledges the close, -1 otherwise |
| Esp32Session.FireAndForgetAsWritten | asp/OBJ/K210_GCC/WIFI/esp32_socket.c:772-783 | as written, the call dereferences NULL exactly when the exchange gives no reply, and otherwise returns with the exchange's state |
| Esp32Session.FireAndForget | asp/OBJ/K210_GCC/WIFI/esp32_socket.c:811-838 | the corrected call returns the same state as the written one whenever that one returns |
| Esp32Session.FireAndForgetAsWrittenCrashes | asp/OBJ/K210_GCC/WIFI/esp32_socket.c:772-783 | as written, a failed exchange in set_debug (and set_certificate, set_private_key) dereferences NULL |
| Esp32Session.FireAndForgetCorrected | asp/OBJ/K210_GCC/WIFI/esp32_socket.c:811-838 | the corrected operation agrees with the written one whenever that one returns, and after a silent co-processor only has logged the request |
| Esp32Socket.Esp32.constructor | asp/OBJ/K210_GCC/WIFI/esp32_socket.c:70-76 | the handle and the globals start all zero, with the scratch buffer zeroed |
| Esp32Socket.Esp32.WaitForReady | asp/OBJ/K210_GCC/WIFI/esp32_socket.c:326-346 | over SPI the polling loop returns 0 exactly when the line went low in time, advancing the clock by the time waited; over I2C it returns 0 at once |
| Esp32Socket.Esp32.WaitForActive | asp/OBJ/K210_GCC/WIFI/esp32_socket.c:353-373 | the same for the line going high within 1000 ms |
| Esp32Socket.Esp32.SelectModule | asp/OBJ/K210_GCC/WIFI/esp32_socket.c:449-455 | chip select with both waits and the corrected timeout test is `Select` |
| Esp32Socket.Esp32.SendCommand | asp/OBJ/K210_GCC/WIFI/esp32_socket.c:384-493 | the send is `Send`; the scratch buffer is used exactly when the frame fits 256 bytes, and it is zero again on every exit path |
| Esp32Socket.Esp32.ClearFront | asp/OBJ/K210_GCC/WIFI/esp32_socket.c:486-491 | clearing the first packet_len bytes of a buffer that is zero past them leaves the whole buffer zero |
| Esp32Socket.Esp32.ReadByte | asp/OBJ/K210_GCC/WIFI/esp32_socket.c:499-508 | one byte is consumed from the stream, 0xFF past its end |
| Esp32Socket.Esp32.ReadBytes | asp/OBJ/K210_GCC/WIFI/esp32_socket.c:513-526 | exactly `len` bytes are consumed |
| Esp32Socket.Esp32.WaitSpcChar | asp/OBJ/K210_GCC/WIFI/esp32_socket.c:533-552 | the polling loop is the search `WaitFor` over its window: 0 when the byte was found before ERR, -1 otherwise |
| Esp32Socket.Esp32.CheckData | asp/OBJ/K210_GCC/WIFI/esp32_socket.c:559-569 | one byte is consumed and the result is 0 exactly when it is the wanted byte |
| Esp32Socket.Esp32.ReadOneParam | asp/OBJ/K210_GCC/WIFI/esp32_socket.c:641-653 | one length-prefixed parameter is read as `ReadParam` specifies |
| Esp32Socket.Esp32.ReadParamList | asp/OBJ/K210_GCC/WIFI/esp32_socket.c:639-654 | the loop reads n parameters as `ReadParams` specifies |
| Esp32Socket.Esp32.WaitResponseCmd | asp/OBJ/K210_GCC/WIFI/esp32_socket.c:575-666 | the reply reader is `Receive`, and with it `ParseReply`'s round trip and failure lemmas |
| Esp32Socket.Esp32.SyncStart | asp/OBJ/K210_GCC/WIFI/esp32_socket.c:593-609 | the DUMMY (I2C) and START searches read exactly what `SyncToStart` reads and agree with its verdict |
| Esp32Socket.Esp32.ReadAfterStart | asp/OBJ/K210_GCC/WIFI/esp32_socket.c:611-661 | the opcode, count, parameter and END checks are `ParseAfterStart` |
| Esp32Socket.Esp32.SendCommandGetResponse | asp/OBJ/K210_GCC/WIFI/esp32_socket.c:672-683 | the exchange is `Exchange`, with the scratch buffer zeroed afterwards |
| Esp32Socket.Esp32.Reset | asp/OBJ/K210_GCC/WIFI/esp32_socket.c:299-319 | the reset is `Esp32Link.Reset` for the handle's bus and pin |
| Esp32Socket.Esp32.AskOne | asp/OBJ/K210_GCC/WIFI/esp32_socket.c:672-683 | one command with a one-parameter reply behaves as the handle's link says |
| Esp32Socket.Esp32.FirmwareVersion | asp/OBJ/K210_GCC/WIFI/esp32_socket.c:749-767 | is `Esp32Session.FirmwareVersion` over the handle's link |
| Esp32Socket.Esp32.SetDebug | asp/OBJ/K210_GCC/WIFI/esp32_socket.c:772-783 | is the corrected `Esp32Session.SetDebug` |
| Esp32Socket.Esp32.GetTime | asp/OBJ/K210_GCC/WIFI/esp32_socket.c:787-806 | the result and the new `time` global are `Esp32Session.GetTime` |
| Esp32Socket.Esp32.SetCertificate | asp/OBJ/K210_GCC/WIFI/esp32_socket.c:811-822 | is the corrected `Esp32Session.SetCertificate` |
| Esp32Socket.Esp32.SetPrivateKey | asp/OBJ/K210_GCC/WIFI/esp32_socket.c:827-838 | is the corrected `Esp32Session.SetPrivateKey` |
| Esp32Socket.Esp32.SetNetwork | asp/OBJ/K210_GCC/WIFI/esp32_socket.c:845-867 | is `Esp32Session.SetNetwork` |
| Esp32Socket.Esp32.SetPassphrase | asp/OBJ/K210_GCC/WIFI/esp32_socket.c:874-895 | is `Esp32Session.SetPassphrase` |
| Esp32Socket.Esp32.Status | asp/OBJ/K210_GCC/WIFI/esp32_socket.c:905-922 | is `Esp32Session.Status` |
| Esp32Socket.Esp32.IsConnected | asp/OBJ/K210_GCC/WIFI/esp32_socket.c:929-943 | is `Esp32Session.IsConnected`, the reset included |
| Esp32Socket.Esp32.Join | asp/OBJ/K210_GCC/WIFI/esp32_socket.c:953-956 | sends the passphrase when there is one, else the network name |
| Esp32Socket.Esp32.ConnectPoll | asp/OBJ/K210_GCC/WIFI/esp32_socket.c:962-974 | one poll either gives the loop's verdict or leaves the loop's outcome that of one poll fewer |
| Esp32Socket.Esp32.ConnectRetries | asp/OBJ/K210_GCC/WIFI/esp32_socket.c:960-975 | the `retry_times` loop is `ConnectPolls` |
| Esp32Socket.Esp32.Connect | asp/OBJ/K210_GCC/WIFI/esp32_socket.c:950-995 | is `Esp32Session.Connect` |
| Esp32Socket.Esp32.Disconnect | asp/OBJ/K210_GCC/WIFI/esp32_socket.c:1000-1010 | is `Esp32Session.Disconnect` |
| Esp32Socket.Esp32.GetHostByName | asp/OBJ/K210_GCC/WIFI/esp32_socket.c:1017-1065 | the result and the address copied into `ip` are `Esp32Session.GetHostByName` |
| Esp32Socket.Esp32.GetSocket | asp/OBJ/K210_GCC/WIFI/esp32_socket.c:1072-1096 | is `Esp32Session.GetSocket` |
| Esp32Socket.Esp32.SocketOpen | asp/OBJ/K210_GCC/WIFI/esp32_socket.c:1105-1203 | the parameter builders and the exchange are `Esp32Session.SocketOpen` for the handle's socket |
| Esp32Socket.Esp32.SocketStatus | asp/OBJ/K210_GCC/WIFI/esp32_socket.c:1213-1232 | is `Esp32Session.SocketStatus` |
| Esp32Socket.Esp32.SocketConnected | asp/OBJ/K210_GCC/WIFI/esp32_socket.c:1239-1242 | is `Esp32Session.SocketConnected` |
| Esp32Socket.Esp32.SocketWrite | asp/OBJ/K210_GCC/WIFI/esp32_socket.c:1249-1271 | writing `buffer[..len]` is `Esp32Session.SocketWrite` |
| Esp32Socket.Esp32.SocketAvailable | asp/OBJ/K210_GCC/WIFI/esp32_socket.c:1276-1299 | is `Esp32Session.SocketAvailable` |
| Esp32Socket.Esp32.SocketRead | asp/OBJ/K210_GCC/WIFI/esp32_socket.c:1304-1332 | the result and the bytes copied are `Esp32Session.SocketRead` |
| Esp32Socket.Esp32.SocketConnect | asp/OBJ/K210_GCC/WIFI/esp32_socket.c:1341-1369 | the open and the establish-poll loop are `Esp32Session.SocketConnect` |
| Esp32Socket.Esp32.SocketClose | asp/OBJ/K210_GCC/WIFI/esp32_socket.c:1376-1397 | is `Esp32Session.SocketClose` |
| Esp32Socket.Esp32.Adopt | asp/OBJ/K210_GCC/WIFI/esp32_socket.c:1454-1479 | the handle takes the configuration, connection IDLE, socket CLOSED, socket number 0xFF; the pins are the configured ones over SPI and zero otherwise |
| Esp32Socket.Esp32.Init | asp/OBJ/K210_GCC/WIFI/esp32_socket.c:1447-1497 | no configuration changes nothing and fails; otherwise the handle is set up, and it succeeds and resets the module exactly when a bus is present |
| Esp32Socket.Esp32.Deinit | asp/OBJ/K210_GCC/WIFI/esp32_socket.c:1504-1513 | no handle gives E_PAR; otherwise E_OK with connection IDLE, socket CLOSED, socket number 0xFF; the configuration, bus, pins, clock and co-processor state, `time`, the buffer flag and the link unchanged |

## Left out

- GPIO pins, SPI and I2C transfers, `get_millis` and `dly_tsk` (esp32_socket.c:88-294) read or drive hardware. They are replaced by the environment `Env`: the bytes the co-processor clocks out, one handshake per chip select, a log of frames written and a millisecond clock. The I2C 32-byte chunking is not modelled.
- The 1 ms sleep of every byte transfer is not charged to the clock. Only the waits for the ready line, the connect and socket-connect delays and the reset delays move it.
- The 100 ms window of esp32_wait_spc_char is modelled as a window of 100 byte reads.
- Esp32Link.Select: uses the corrected select-timeout test (see Findings). The written test never fires in the model.
- Esp32Link.SelectTimeoutAsWrittenNeverFires: rests on the model's exact clock, where the time measured by the select is exactly min(active, 1000) ms and nothing else takes time. In C the select takes its time (esp32_socket.c:452) before esp32_wait_for_active takes its own (esp32_socket.c:360), and `dly_tsk` may overshoot, so the measured wait may reach 1001 ms and the written test fire by chance.
- Esp32Link.Send: the freshly allocated buffer for a frame longer than 256 bytes is modelled as zeros. C leaves its padding bytes uninitialised.
- Esp32Session.Ask: parameters are byte strings with no pointer. A NULL parameter list is the empty list. The reply count is always one, as the driver always asks for one.
- Esp32Session.Byte: reading `param[0]` or `param[1]` of a reply parameter that is too short is undefined in C. The model reads 0 there.
- 32-bit wrap-around of `get_millis` differences and of `packet_len` is not modelled. The clock and lengths are unbounded naturals.
- Parameters whose length does not fit the length field are written with the length truncated, as in C. The round-trip lemmas require lengths below 2^8 or 2^16 and a count below 256, the limits of the wire fields.
- malloc and free of parameter lists and replies, and the `del` callbacks (esp32_socket.c:633-654, 688-744), are not modelled. Lists are sequences. The only allocation modelled is a send buffer that cannot be had, which makes the send fail.
- The leak when a reply fails its END check is not modelled.
- Esp32Session.FirmwareVersion, Esp32Session.GetTime, Esp32Session.GetHostByName, Esp32Session.SocketRead: they return the bytes the C code copies into caller buffers with an unchecked memcpy. The model does not write raw memory. GetTime copies into the four bytes of `time`: a longer reply overflows into neighbouring memory in C, and is cut to four bytes here.
- Debug printing (`PRINTFn`, `ESP32_DEBUG` blocks) is left out. So are `socket_enum_to_str` and `wlan_enum_to_str`. This includes the status query inside a debug print of esp32_socket_read, which is compiled out.
- The kernel ER codes are modelled as three values: E_OK, E_SYS and E_PAR.
- The value of `lc_buf_flag` after a session operation is not stated. Only the contract of Esp32Socket.Esp32.SendCommand ties it to the frame length.
- The results of `esp32_wait_for_ready` and of the send inside the exchange are ignored, as in C (esp32_socket.c:449, 579, 681). The model keeps that.
- Esp32Socket.Esp32.SocketConnect: the `ret == -2` branch after the open (esp32_socket.c:1345-1348) is omitted. It is dead code, because esp32_socket_open returns only 0 or -1. Esp32Session.SocketConnect states the -1/0 cases it leaves.
- The session operations use a ghost `link` kept equal to the wire of the handle's bus and reset pin. This is `Valid()`'s `Wired()` part.
- Esp32Socket.Esp32.Init: the handle is the single static `esp32Handle`. Init returns success or failure instead of a pointer.
- The demo programs `wifitest.c` and `tone.c` are not part of this model.

## Findings

| source | as written | input that shows it | evidently intended | confidence | as-written member | corrected member |
|---|---|---|---|---|---|---|
| asp/OBJ/K210_GCC/WIFI/esp32_socket.c:452-455, 583-586 | the select timeout test is `(get_millis() - tm) > 1000`, but esp32_wait_for_active stops after at most 1000 ms, so the test can never fire | a ready line that never goes high: handshake `Handshake(0, 1000)`, where the wait gives up after exactly 1000 ms and the frame is still sent and 0 returned | report a timeout exactly when the wait for the active line gave up (`>= 1000`, equivalently a -1 from esp32_wait_for_active) | not executed; under an exact clock (see Left out) | Esp32Link.SendAsWrittenIgnoresStuckLine | Esp32Link.SelectTimedOutIffActiveWaitFails |
| asp/OBJ/K210_GCC/WIFI/esp32_socket.c:778-782, 817-821, 833-837 | set_debug, set_certificate and set_private_key call `resp->del(resp)` right after an exchange, even when it returned NULL | a co-processor that sends nothing (empty byte stream): the exchange returns NULL and the call dereferences it | free the reply only when there is one | not executed | Esp32Session.FireAndForgetAsWrittenCrashes | Esp32Session.FireAndForgetCorrected |
