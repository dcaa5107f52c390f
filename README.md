# CrossPoint Reader plugin: a verified model

This project models the transport and decision logic of the CrossPoint Reader device
plugin for calibre, and proves properties of that model. The plugin pushes EPUB books to
a small e-reader over the local network. The model covers its three core files.

- `crosspoint_reader/ws_client.py` holds a hand-written WebSocket client and the UDP
  discovery of the device.
  - The frame codec (section 5.2 of RFC 6455) with masking (section 5.3 of RFC 6455).
  - The `read_text` dispatch on Close, Ping, Pong and Text frames (sections 5.5.1 to
    5.5.3 of RFC 6455), and the non-blocking `drain_messages`.
  - `close`, and the status-line test of the HTTP upgrade (section 4.1 of RFC 6455).
  - The broadcast address and probe list of `discover_device`, and the port a reply
    announces.
  - The `upload_file` session: START, the READY gate, the chunks, the wait for DONE, and
    the close in its `finally`.
- `crosspoint_reader/driver.py` is the calibre device driver. It holds:
  - the two-second discovery rate limit and the connected flag;
  - the store UUID;
  - the book listing filter;
  - the upload plan of `upload_books`: the 2048-byte chunk cap and the on-device path;
  - the decision which books `remove_books_from_metadata` drops from calibre's lists.
- `crosspoint_reader/baseline_jpeg.py` rewrites an EPUB so that every image is a baseline
  JPEG. It plans which PNG, GIF, WebP and BMP entries are renamed to `.jpg`, rewrites the
  references in content files and in the package document, and writes each entry, stored
  or deflated. It also counts the conversions.

## Layout

One Dafny module per file, following the program's structure:

| file | module | models |
|---|---|---|
| `wrappers.dfy` | `Wrappers` | `Option` and `Result` |
| `errors.dfy` | `Errors` | the exceptions the core raises, as one `Error` datatype |
| `bytes.dfy` | `Bytes` | bytes and the big-endian fields of `struct` (`!H`, `!Q`) |
| `text.dfy` | `Text` | the string built-ins the code uses: `find`, `split`, `join`, `strip`, `replace`, `lower`, `rsplit`, `int()`, `str()`, and `os.path.basename` as on POSIX |
| `utf8.dfy` | `Utf8` | UTF-8 encode, strict decode and `'ignore'` decode; the ASCII codec |
| `frame_codec.dfy` | `FrameCodec` | `_send_frame` framing, `_read_frame` parsing, streams of frames |
| `socket.dfy` | `Sockets` | a TCP socket whose peer behaviour is fixed in advance |
| `handshake.dfy` | `Handshake` | the upgrade request, `_read_http_response`, the 101 test |
| `ws_client.dfy` | `WsClient` | the `WebSocketClient` class, with frame-level specifications of its loops |
| `discovery.dfy` | `Discovery` | `_broadcast_from_host` and `discover_device` |
| `upload.dfy` | `Upload` | `upload_file` |
| `driver.dfy` | `Driver` | the `CrossPointDevice` class and the logic of its methods |
| `baseline_jpeg.dfy` | `BaselineJpeg` | `convert_epub_images` |

### How the imperative code is modelled

The source changes state step by step, so the model does too.

- `WebSocketClient` is a class whose `sock` field is a `Socket?`; null stands for Python's
  `None`.
- The socket holds the peer's whole inbound byte stream with a read cursor, and the bytes
  the client has sent.
- Each method is proved against a pure specification on `Conn`: the frames still pending
  and the frames sent.
  - A ghost log ties the sent frames to the bytes on the wire.
  - `LoggedDecodes` and `SentOnWire` prove that those bytes decode back to exactly those
    frames.
- `_send_frame` keeps its in-place masking loop over an `array` (`MaskInPlace`).
  `_recv_exact` keeps its receive loop.
- `read_text` and `drain_messages` keep their loops, one pass per loop iteration.
- `CrossPointDevice` is a class with the four fields the driver updates. Its loops are
  proved against snoc-recursive functions: `BookList`, `KeptBooks`, `Run`, and `Output`
  in `convert_epub_images`.

### What the environment stands for

Randomness, clocks, sockets and calls into code outside the core become parameters.

- The masking keys are a function `masks: nat -> Mask`, drawn in order. The handshake
  key is an argument.
- Which `sendall` calls raise is a function `fails: nat -> bool` over the socket's count of
  calls, so any call of a session may raise, the first or a later one.
- The `read_text` deadline is a budget: the number of deadline checks that still pass.
- `select` in `drain_messages` is `polls`: how many consecutive polls report the socket
  readable.
- `upload_file` takes a `polls(i)` for the drain after chunk `i`.
- A discovery round's first datagram is `heard(round)`. The driver's clock is a `now: real`
  argument.
- Image conversion is `convert: seq<byte> -> Option<seq<byte>>`. The OPF media-type fix
  is `fixOpf: string -> string`.
- NFKC normalisation and `casefold` are given functions.
- `_convert_epub_to_baseline` is `convert: string -> Option<string>`, and `upload_file`
  and `os.path.getsize` are given functions in `upload_books`.

### Behaviour worth noting

- `_broadcast_from_host` accepts any host of four dot-separated parts that `int()`
  accepts. It does not require real IPv4 octets, so `1.2.3.999` gives `1.2.3.255`.
- Every datagram heard ends discovery, not only a well-formed one (with POSIX `recvfrom`,
  see `Discovery.Received` under "Left out"). Lenient decoding never fails, and a missing
  or unparsable port gives 81.
- `_discover` discards a reply whose host is empty or whose port is 0.
- The code does not parse the Close frame's status code and reason into the error. They
  are only logged, and `read_text` raises "Connection closed".
- `upload_file` itself does not cap the chunk size; `upload_books` does.
  - With a chunk size of 0, `f.read(0)` returns nothing, so no chunk is sent.
  - With a size of -1, `f.read(-1)` reads the rest, so the whole file goes in one chunk.
  - With a size below -1, the first `f.read` raises `ValueError` before any chunk is sent.
    The session then fails with `ReadLengthInvalid`, reports no progress and still closes
    (`Upload.ChunksOfOddSizes`, `Upload.SendChunks`).
- Content files are rewritten with the whole rename map. A reference to an image whose
  conversion failed still moves to its `.jpg` name, while the entry keeps its old name
  (`BaselineJpeg.ContentIgnoresConversion`, `BaselineJpeg.WrittenEntry`).

## Model

| member | source | states |
|---|---|---|
| Bytes.FromToBigEndian | crosspoint_reader/ws_client.py:88-91 | unpacking a big-endian field packed by `struct.pack` gives back the value |
| Bytes.ToFromBigEndian | crosspoint_reader/ws_client.py:135-137 | packing the value read from a big-endian field gives back the field's bytes |
| Text.Find | crosspoint_reader/ws_client.py:243 | `find` gives the index of the first occurrence, and none exactly when the character is absent |
| Text.Split | crosspoint_reader/ws_client.py:181 | `split` gives at least one part, and no part holds the separator |
| Text.JoinSplit | crosspoint_reader/ws_client.py:181-189 | joining the parts of a split gives back the string |
| Text.SplitJoin | crosspoint_reader/ws_client.py:188-189 | splitting a join of separator-free parts gives back the parts |
| Text.Basename | crosspoint_reader/driver.py:295 | POSIX `os.path.basename` (and `split('/')[-1]`): the base name is the part after the last `/`: it holds no `/`, is a suffix of the path, and is either the whole path or preceded by a `/` |
| Text.BasenameInDir | crosspoint_reader/driver.py:373 | the folders in front of a name do not change its base name |
| Text.Strip | crosspoint_reader/ws_client.py:247 | the stripped text neither starts nor ends with white space |
| Text.StripPadded | crosspoint_reader/ws_client.py:247 | the stripped text sits inside the input with only white space before and after it |
| Text.StripLeft | crosspoint_reader/ws_client.py:247 | `lstrip` leaves a suffix of the input that does not start with white space |
| Text.StripLeftSpaces | crosspoint_reader/ws_client.py:247 | every character `lstrip` removes from the front is white space |
| Text.StripRight | crosspoint_reader/ws_client.py:247 | `rstrip` leaves a prefix of the input that does not end with white space |
| Text.StripRightSpaces | crosspoint_reader/ws_client.py:247 | every character `rstrip` removes from the end is white space |
| Text.ReplaceAbsent | crosspoint_reader/baseline_jpeg.py:110-111 | `ReplaceAll` (`str.replace`) of a pattern that does not occur leaves the text unchanged |
| Text.ReplaceFirst | crosspoint_reader/baseline_jpeg.py:110-111 | `str.replace` turns the first occurrence of the pattern into the replacement, keeps the text before it, and goes on after it |
| Text.ReplaceChar | crosspoint_reader/driver.py:105 | a one-character replace substitutes that character at every position and changes nothing else |
| Text.ReplaceOneChar | crosspoint_reader/driver.py:365 | the general `replace` (`ReplaceAll`) with one-character strings is that substitution |
| Text.Lower | crosspoint_reader/baseline_jpeg.py:79 | `lower` keeps the length and lowers each character |
| Text.BeforeLastDot | crosspoint_reader/baseline_jpeg.py:81 | `rsplit('.', 1)[0]` is the prefix before the last dot, or the whole name without a dot |
| Text.ParseIntToString | crosspoint_reader/ws_client.py:247 | `ParseInt` (`int()`) of `str(n)` gives back n for every integer |
| Utf8.DecodeEncode | crosspoint_reader/baseline_jpeg.py:106-112 | strict UTF-8 decoding of encoded text gives back the text |
| Utf8.DecodeIgnoreEncode | crosspoint_reader/ws_client.py:124 | lenient decoding agrees with the strict decoder on well-formed input |
| Utf8.DecodeIgnore | crosspoint_reader/ws_client.py:124 | lenient decoding never yields more characters than there are bytes |
| Utf8.EncodeAppend | crosspoint_reader/ws_client.py:71 | encoding distributes over concatenation |
| Utf8.AsciiEncode | crosspoint_reader/ws_client.py:42 | `encode('ascii')` succeeds exactly on ASCII text, one byte per character with the code point's value |
| Utf8.AsciiEncodeIsUtf8 | crosspoint_reader/ws_client.py:42 | on ASCII text the ASCII codec and UTF-8 agree |
| Utf8.AsciiIgnore | crosspoint_reader/ws_client.py:45 | `decode('ascii', 'ignore')` gives ASCII text no longer than the bytes |
| Utf8.AsciiIgnoreEncode | crosspoint_reader/ws_client.py:45 | decoding ASCII-encoded text while ignoring errors gives back the text |
| FrameCodec.FirstByte | crosspoint_reader/ws_client.py:79-80 | the first header byte carries the opcode's low four bits |
| FrameCodec.SecondByte | crosspoint_reader/ws_client.py:81-90 | the second header byte has the mask bit set and carries the 7-bit length marker |
| FrameCodec.LengthField | crosspoint_reader/ws_client.py:84-91 | the length field is the marker byte followed by an extended field of ExtendedLength(n) bytes: none below 126, 2 below 2^16, else 8 |
| FrameCodec.Masked | crosspoint_reader/ws_client.py:95-97 | masking keeps the payload's length |
| FrameCodec.MaskedTwice | crosspoint_reader/ws_client.py:95-97 | masking twice with the same key gives back the payload, so one operation masks and unmasks |
| FrameCodec.EncodeFrame | crosspoint_reader/ws_client.py:79-98 | encoding fails, with the struct error, exactly when the length does not fit 64 bits; otherwise the frame has 2 + ExtendedLength + 4 + len(payload) bytes |
| FrameCodec.EncodeLayout | crosspoint_reader/ws_client.py:79-98 | FIN and the opcode's low bits; the mask bit and the minimal marker; the big-endian length; the key; the payload XORed with mask[i % 4] |
| FrameCodec.EncodeLowBits | crosspoint_reader/ws_client.py:80 | only the low four bits of the opcode reach the wire |
| FrameCodec.HeaderSize | crosspoint_reader/ws_client.py:129-140 | a header takes 2 to 14 bytes, and at least 6 when a key follows |
| FrameCodec.DecodeHeader | crosspoint_reader/ws_client.py:129-140 | a decoded header lies within the stream, with an opcode below 16 and room for the key when masked |
| FrameCodec.DecodeHeaderAfter | crosspoint_reader/ws_client.py:129-140 | the header is read in the code's order: two fixed bytes, then the 16- or 64-bit length, then the key; it is missing when the stream ends before them |
| FrameCodec.DecodeFrame | crosspoint_reader/ws_client.py:126-144 | a decoded frame takes at least two bytes and no more than the stream has; the only failure is 'Socket closed' |
| FrameCodec.Payload | crosspoint_reader/ws_client.py:141-143 | the payload taken after a header has the length the header announces |
| FrameCodec.DecodeEncodedHeader | crosspoint_reader/ws_client.py:129-140 | whatever follows, the header of an encoded frame decodes to the opcode's low bits, the mask flag set, the payload length and a size of 6 + ExtendedLength |
| FrameCodec.DecodeEncode | crosspoint_reader/ws_client.py:126-144 | under every key and whatever follows, decoding an encoded frame gives (opcode & 0x0F, payload) and consumes exactly the frame |
| FrameCodec.HeaderOnlyReadsPrefix | crosspoint_reader/ws_client.py:129-140 | a header is decided by its own bytes |
| FrameCodec.DecodeOnlyReadsFrame | crosspoint_reader/ws_client.py:126-144 | a frame is decided by its own bytes, whatever follows them |
| FrameCodec.DecodeTruncated | crosspoint_reader/ws_client.py:146-153 | a stream that stops inside a frame is 'Socket closed', never a shorter frame |
| FrameCodec.EncodedPrefixIsTruncated | crosspoint_reader/ws_client.py:146-153 | every proper prefix of an encoded frame fails with 'Socket closed' |
| FrameCodec.DecodeAllNext | crosspoint_reader/ws_client.py:126-144 | the frames of a stream start with the frame `_read_frame` reads, and there are none exactly when it fails |
| FrameCodec.DecodeAllAppend | crosspoint_reader/ws_client.py:98 | whole frames followed by anything decode as those frames followed by the frames of the rest |
| FrameCodec.AppendEncodedFrame | crosspoint_reader/ws_client.py:98 | sending one more frame adds exactly that frame to what the wire decodes to |
| FrameCodec.EncodedFrameAlone | crosspoint_reader/ws_client.py:76-98 | an encoded frame alone decodes to that one frame with nothing left over |
| FrameCodec.DecodeSent | crosspoint_reader/ws_client.py:76-98 | the frames a client sends, one after another and under any keys, decode to exactly that sequence |
| FrameCodec.MaskInPlace | crosspoint_reader/ws_client.py:95-97 | the in-place loop leaves the array holding the masked payload |
| FrameCodec.BuildFrame | crosspoint_reader/ws_client.py:79-98 | the header and masked payload built step by step are EncodeFrame's bytes, or its length error |
| Sockets.Socket.Recv | crosspoint_reader/ws_client.py:149 | `recv(n)` returns the next min(n, maxRecv, available) bytes of the stream, in order, and nothing once the stream ends (a fixed chunking; see Left out) |
| Sockets.Socket.SendAll | crosspoint_reader/ws_client.py:98 | the i-th `sendall` call raises exactly when fails(i); a call that goes through writes every byte, one that raises writes nothing; every call is counted |
| Sockets.Socket.Close | crosspoint_reader/ws_client.py:66 | closing changes nothing but the closed flag |
| Handshake.PortIsAscii | crosspoint_reader/ws_client.py:35 | a port written in decimal is ASCII |
| Handshake.RequestEncodable | crosspoint_reader/ws_client.py:32-42 | the request's ASCII encoding fails exactly when the host or the key is not ASCII |
| Handshake.HttpRead | crosspoint_reader/ws_client.py:48-56 | the response is what was read plus a prefix of the rest of the stream |
| Handshake.HttpReadStops | crosspoint_reader/ws_client.py:51-55 | the loop stops only once the blank line has arrived or the stream has ended |
| Handshake.HttpReadWithoutEnd | crosspoint_reader/ws_client.py:51-55 | a reply without a blank line is read to the end of the stream |
| Handshake.HttpReadTakesWholeChunk | crosspoint_reader/ws_client.py:51-55 | whatever arrives in the same recv chunk as the blank line is consumed with the reply |
| Handshake.FirstLine | crosspoint_reader/ws_client.py:44 | `split(b'\r\n', 1)[0]` is a CRLF-free prefix ending at the first CRLF, or the whole reply |
| Handshake.FirstLineOf | crosspoint_reader/ws_client.py:44 | the first line of a status line, CRLF and anything else is the status line |
| Handshake.HandshakeOnStatusLine | crosspoint_reader/ws_client.py:44-45 | `HandshakeResult` succeeds exactly when ' 101 ' occurs in the status line; otherwise it fails with that line decoded as ASCII, ignoring errors |
| WsClient.ReadTextGoesOn | crosspoint_reader/ws_client.py:102-123 | a pass of `read_text` that does not end the call leaves the rest of the budget to the next pass |
| WsClient.FirstEndIsFirst | crosspoint_reader/ws_client.py:100-124 | `FirstEnd` is the index of the first frame that ends `read_text`, each earlier Ping having made one sendall call; no frame before it ends the call |
| WsClient.TextStepOutcome | crosspoint_reader/ws_client.py:105-124 | one pass (`TextStep`) consumes the first frame; it ends the call on Close or Text, or on a Ping whose Pong cannot be sent because the next sendall raises or the payload is too long, and otherwise answers a Ping with one Pong carrying its payload; one sendall call per Ping that fits |
| WsClient.ReadTextOutcome | crosspoint_reader/ws_client.py:100-124 | `read_text` (`ReadTextSpec`) answers the first frame that ends it, having sent one Pong per earlier Ping; it gives 'Socket closed' when the stream runs out and 'Timed out' when the deadline passes first |
| WsClient.ReadTextReturnsText | crosspoint_reader/ws_client.py:124 | a returned message is the lenient decoding of a pending Text frame, and the frames after it are still pending |
| WsClient.ReadTextSendsPongs | crosspoint_reader/ws_client.py:114-117 | `read_text` writes nothing but Pongs, one sendall call per Pong written plus at most one that raised |
| WsClient.FirstClose | crosspoint_reader/ws_client.py:166-167 | the index of the first Close frame; no frame before it is a Close |
| WsClient.DrainStepOutcome | crosspoint_reader/ws_client.py:163-167 | a frame other than Close is consumed, and only a Text frame adds a message |
| WsClient.DrainGoesOn | crosspoint_reader/ws_client.py:159-165 | a pass that does not raise adds its message to those already collected |
| WsClient.DrainOutcome | crosspoint_reader/ws_client.py:155-168 | `drain_messages` (`DrainSpec`) gives the Text payloads of the frames polled, in order; it raises on a Close and loses the texts read before it; it gives 'Socket closed' when the stream ends while select still reports data |
| WsClient.DrainSendsNothing | crosspoint_reader/ws_client.py:155-168 | `drain_messages` makes no sendall call, so Pings go unanswered |
| WsClient.LogAppend | crosspoint_reader/ws_client.py:98 | each frame's bytes appended to the socket keep the log of sent frames |
| WsClient.LoggedDecodes | crosspoint_reader/ws_client.py:98 | the bytes sent since the upgrade request decode to exactly the logged frames |
| WsClient.WebSocketClient.SentOnWire | crosspoint_reader/ws_client.py:58-68 | what the client wrote to its socket decodes to the frames it sent, and `close` keeps this true of the socket it drops |
| WsClient.WebSocketClient.constructor | crosspoint_reader/ws_client.py:14-20 | a new client has no socket and has drawn no masking key |
| WsClient.WebSocketClient.ReadHttpResponse | crosspoint_reader/ws_client.py:48-56 | the recv(1024) loop returns HttpRead's bytes and moves the cursor by as many |
| WsClient.WebSocketClient.Connect | crosspoint_reader/ws_client.py:30-46 | a failed connection raises; otherwise the socket is kept, an unencodable request raises without a sendall call, a sendall call that raises raises, and else the request is sent and the result is the status-line test on the reply |
| WsClient.WebSocketClient.RecvExact | crosspoint_reader/ws_client.py:146-153 | `_recv_exact(n)` returns exactly the next n bytes, or 'Socket closed' once the stream ends first |
| WsClient.WebSocketClient.ReadLength | crosspoint_reader/ws_client.py:133-137 | the length is the marker itself, or the 16- or 64-bit big-endian field after it |
| WsClient.WebSocketClient.ReadMask | crosspoint_reader/ws_client.py:138-140 | four key bytes are read when the mask bit is set, and none otherwise |
| WsClient.WebSocketClient.ReadHeaderTail | crosspoint_reader/ws_client.py:133-140 | what follows the two fixed bytes is read as DecodeHeader says |
| WsClient.WebSocketClient.ReadHeader | crosspoint_reader/ws_client.py:129-140 | the header read is DecodeHeader's, with its key, or 'Socket closed' |
| WsClient.WebSocketClient.ReadPayload | crosspoint_reader/ws_client.py:141 | n payload bytes are read, and a zero-length payload reads nothing |
| WsClient.WebSocketClient.ReadBody | crosspoint_reader/ws_client.py:141-144 | after the header the payload is read and unmasked: the frame is Payload of the header when the stream holds it, 'Socket closed' otherwise |
| WsClient.WebSocketClient.ReadFrame | crosspoint_reader/ws_client.py:126-144 | `_read_frame` raises without a socket; otherwise it returns DecodeFrame's frame and consumes exactly its bytes, or fails as DecodeFrame does |
| WsClient.WebSocketClient.NextFrame | crosspoint_reader/ws_client.py:126-144 | frame by frame, `_read_frame` takes the first pending frame |
| WsClient.WebSocketClient.SendFrame | crosspoint_reader/ws_client.py:76-98 | `_send_frame` without a socket raises 'Socket not connected' and changes nothing; otherwise it writes EncodeFrame's bytes under the next key, or raises the length error before any sendall call, or the error of a sendall call that raises |
| WsClient.WebSocketClient.SendOnSocket | crosspoint_reader/ws_client.py:78-98 | on a socket, the frame is SendSpec's: the length error draws no key and makes no call; otherwise one key is drawn and one sendall call made, which writes the frame unless it raises |
| WsClient.WebSocketClient.Transmit | crosspoint_reader/ws_client.py:98 | one sendall call: the encoded frame reaches the wire and the log, or the call raises and nothing is written |
| WsClient.WebSocketClient.SendText | crosspoint_reader/ws_client.py:70-71 | `send_text` sends a Text frame carrying the UTF-8 encoding; without a socket it raises and changes nothing |
| WsClient.WebSocketClient.SendBinary | crosspoint_reader/ws_client.py:73-74 | `send_binary` sends a Binary frame carrying the payload; without a socket it raises and changes nothing |
| WsClient.WebSocketClient.Close | crosspoint_reader/ws_client.py:58-68 | `close` leaves the client with no socket, and without one changes nothing else; a socket it held is closed after one sendall call for a Close frame under the next key, logged unless that call raises, and still decodes to the frames sent |
| WsClient.WebSocketClient.ReadTextPass | crosspoint_reader/ws_client.py:103-123 | one pass of the `read_text` loop is TextStep |
| WsClient.WebSocketClient.ReadText | crosspoint_reader/ws_client.py:100-124 | `read_text` follows ReadTextSpec; without a socket it raises 'Socket not connected', or 'Timed out' when no deadline check passes, and changes nothing |
| WsClient.WebSocketClient.DrainPass | crosspoint_reader/ws_client.py:160-167 | one pass of the drain loop is DrainStep |
| WsClient.WebSocketClient.DrainMessages | crosspoint_reader/ws_client.py:155-168 | `drain_messages` returns [] without a socket, and otherwise follows DrainSpec |
| Discovery.BroadcastParts | crosspoint_reader/ws_client.py:180-189 | `BroadcastFromHost` keeps the first three parts of the host and puts 255 last |
| Discovery.BroadcastIdempotent | crosspoint_reader/ws_client.py:180-189 | a broadcast address derived by `BroadcastFromHost` is its own broadcast address |
| Discovery.PortTargetsMembers | crosspoint_reader/ws_client.py:213-214 | a pair is a target of a host's port loop exactly when it names that host and one of the six ports |
| Discovery.TargetsSnoc | crosspoint_reader/ws_client.py:215-223 | each configured host appends its own targets after those of the hosts before it |
| Discovery.HostTargetsMembers | crosspoint_reader/ws_client.py:215-223 | one host adds exactly the pairs of a port with the host itself or its broadcast address |
| Discovery.ExtraTargetsMembers | crosspoint_reader/ws_client.py:215-223 | the configured hosts add exactly the pairs of a port with one of them or its broadcast address |
| Discovery.TargetsMembers | crosspoint_reader/ws_client.py:212-223 | exactly every port of the global broadcast, of each non-empty host and of each derivable broadcast is probed, and nothing else |
| Discovery.ExtraTargetsLength | crosspoint_reader/ws_client.py:215-223 | six targets per non-empty host and six more per derivable broadcast |
| Discovery.TargetsStartGlobal | crosspoint_reader/ws_client.py:212-214 | the probe list starts with 255.255.255.255 on every port |
| Discovery.AppendPorts | crosspoint_reader/ws_client.py:218-219 | the inner loop appends the host on every port |
| Discovery.AppendHost | crosspoint_reader/ws_client.py:216-223 | an empty host is skipped; otherwise its ports are appended, and then those of its broadcast address when it has one |
| Discovery.BuildTargets | crosspoint_reader/ws_client.py:212-223 | the nested loops build exactly Targets(hosts) |
| Discovery.Received | crosspoint_reader/ws_client.py:235 | `recvfrom(256)` as on POSIX, which truncates: a prefix of at most 256 bytes is kept, and all of a shorter datagram |
| Discovery.ReceivedIgnoresTail | crosspoint_reader/ws_client.py:235 | bytes past the 256th play no part |
| Discovery.AfterSemicolon | crosspoint_reader/ws_client.py:243-249 | `ReplyPort` parses the port from the first comma field of the stripped text after the first ';', with 81 when it does not parse |
| Discovery.AnnouncedPort | crosspoint_reader/ws_client.py:243-250 | `ReplyPort` of a name, ';', a port and then nothing or a comma is that port |
| Discovery.DefaultPort | crosspoint_reader/ws_client.py:243-244 | `ReplyPort` of a reply without ';' is 81 |
| Discovery.SendProbes | crosspoint_reader/ws_client.py:226-231 | a round sends the probe to every target in order |
| Discovery.ProbeRounds | crosspoint_reader/ws_client.py:225-251 | a device is found exactly when some round hears a reply; the first such round decides, with every round up to it probed; with no reply all three rounds are probed |
| Discovery.DiscoverDevice | crosspoint_reader/ws_client.py:192-251 | the rounds run over Targets(hosts), and the first reply gives the sender's address and the port it announces |
| Upload.StartFields | crosspoint_reader/ws_client.py:260 | `StartMessage` is four ':'-separated fields, START, the file name, the decimal size and the folder, when neither name holds a ':' |
| Upload.GateOnlyReady | crosspoint_reader/ws_client.py:264-271 | `Gate` lets only READY go on, and an ERROR reply fails with that message verbatim |
| Upload.ChunkLength | crosspoint_reader/ws_client.py:276 | `f.read(size)` returns at most the rest of the file and, for a size of 0 or more, at most size bytes; it returns something unless the size is 0 or the file is at its end |
| Upload.ChunksJoin | crosspoint_reader/ws_client.py:274-280 | for a size of -1 or above 0, the `Chunks` put together are the file |
| Upload.ChunksBounded | crosspoint_reader/ws_client.py:274-280 | no chunk of `Chunks` is empty, none exceeds a positive chunk size, and all but the last have exactly that size |
| Upload.ChunksOfOddSizes | crosspoint_reader/ws_client.py:276 | a chunk size of 0 reads nothing, -1 reads a non-empty file in one piece, and a size below -1 makes the first read raise `ReadLengthInvalid` (`ReadChunks`) |
| Upload.TotalsOfFile | crosspoint_reader/ws_client.py:273-282 | for a size of -1 or above 0 and a non-empty file, the progress reports rise strictly and end at the file's size |
| Upload.ReadTextNonPongs | crosspoint_reader/ws_client.py:264 | reading the answer to START sends no frame but Pongs and leaves the record of which calls raise alone |
| Upload.DoneNonPongs | crosspoint_reader/ws_client.py:286-292 | the wait for DONE (`DoneSpec`) sends no frame but Pongs and leaves the record of which calls raise alone |
| Upload.DoneNeedsDone | crosspoint_reader/ws_client.py:286-292 | the wait succeeds only once the device has sent a Text frame reading DONE |
| Upload.ChunksFrames | crosspoint_reader/ws_client.py:274-283 | whatever sendall calls raise, the loop writes the Binary frames of the first m chunks, besides Pongs, reports after each, and m is all of them when it succeeds |
| Upload.ChunkSendRaises | crosspoint_reader/ws_client.py:279 | a chunk whose sendall call raises ends the loop with the socket error; that chunk is neither written nor reported, and the reports so far are all there are |
| Upload.SessionFrames | crosspoint_reader/ws_client.py:254-294 | whatever sendall calls raise, a session writes, besides Pongs, START unless its call raised, then the Binary frames of the first m chunks, then one more sendall call for the Close frame, written unless that call raises; the reports follow the m chunks, and m is all of them when the session succeeds |
| Upload.SessionStartSent | crosspoint_reader/ws_client.py:262-294 | SessionFrames once START's sendall call went through |
| Upload.LoopThenDone | crosspoint_reader/ws_client.py:273-292 | the chunk loop and the wait for DONE write, besides Pongs, the Binary frames of the first m chunks, with the reports after them, and m is all of them when the loop succeeds |
| Upload.SessionOnWorkingSocket | crosspoint_reader/ws_client.py:254-294 | when no sendall call raises, besides Pongs a session writes START, then the chunks sent, then exactly one Close frame, which is the last frame written |
| Upload.SessionStartFails | crosspoint_reader/ws_client.py:258-262 | when START is too long or its sendall call raises, the session fails with that error, reports nothing, and writes only the Close frame, unless the sendall call of `close()` raises too |
| Upload.ChunksOnlyAfterReady | crosspoint_reader/ws_client.py:264-279 | no chunk is reported unless the device answered START with READY |
| Upload.SendStart | crosspoint_reader/ws_client.py:260-271 | START is sent and its answer gated, as StartSpec says |
| Upload.ChunksHead | crosspoint_reader/ws_client.py:275-283 | a failed send ends the loop without a report; a failed drain ends it after the report; else the loop goes on |
| Upload.SendChunk | crosspoint_reader/ws_client.py:279-283 | a chunk is sent and then drained |
| Upload.SendPass | crosspoint_reader/ws_client.py:276-283 | one pass sends a chunk, reports the total and drains |
| Upload.SendChunks | crosspoint_reader/ws_client.py:273-283 | the chunk loop follows LoopSpec over what the reads give: for a size below -1 it fails with `ReadLengthInvalid` before sending anything; otherwise ChunksSpec over the file's chunks |
| Upload.ChunkLoop | crosspoint_reader/ws_client.py:274-283 | for a size `f.read` accepts, the loop follows ChunksSpec over the file's chunks |
| Upload.ChunkTurn | crosspoint_reader/ws_client.py:276-283 | one turn of the loop either ends it with the result ChunksSpec gives for the whole file, or moves past one non-empty chunk with the rest of the loop still leading to that result |
| Upload.AwaitDone | crosspoint_reader/ws_client.py:286-292 | the wait for DONE follows DoneSpec |
| Upload.UploadSession | crosspoint_reader/ws_client.py:257-294 | the session on a connected client is SessionSpec's over what the reads of the file give, and closes the client on every path |
| Upload.UploadNeedsHandshake | crosspoint_reader/ws_client.py:254-294 | an upload (`UploadSpec`) succeeds only when the request was encodable, its sendall call went through, the status line held ' 101 ', and the session after the reply succeeded |
| Upload.RefusedSendsOnlyClose | crosspoint_reader/ws_client.py:257-294 | a refused handshake sends nothing but the Close frame, and that only when the sendall call of `close()` goes through |
| Upload.Open | crosspoint_reader/ws_client.py:30-46 | `connect` on a socket follows OpenSpec: an unencodable request makes no sendall call, a raising call is the socket error, else the handshake result on what is left of the stream |
| Upload.UploadFile | crosspoint_reader/ws_client.py:254-294 | `upload_file` raises when the connection fails; otherwise its result, reports and frames are UploadSpec's, with the file's reads as ReadChunks gives them, and the socket is closed |
| Driver.ChunkClamp | crosspoint_reader/driver.py:267-270 | the chunk size is the configured one when it is at most 2048, and 2048 otherwise |
| Driver.UploadDir | crosspoint_reader/driver.py:296-300 | the folder is the configured path with a '/' put in front when missing and, unless it is the root, one trailing '/' removed |
| Driver.LpathShape | crosspoint_reader/driver.py:295-304 | the lpath starts with '/' and ends with '/' and the file name |
| Driver.LpathRoot | crosspoint_reader/driver.py:296-302 | the root folder, '' or '/', gives '/' and the file name |
| Driver.LpathNoDoubleSlash | crosspoint_reader/driver.py:299-304 | unless the folder ends in '//', the '/' before the file name is not doubled |
| Driver.StoreUuid | crosspoint_reader/driver.py:105 | the UUID is 'crosspoint-' followed by the host with every '.' made '-' |
| Driver.StoreUuidDistinct | crosspoint_reader/driver.py:105 | hosts without '-' get different UUIDs |
| Driver.FirstAnswerIsFirstHeard | crosspoint_reader/driver.py:68-76 | the answer is that of the first round that hears a reply |
| Driver.FirstAnswerNone | crosspoint_reader/driver.py:68-76 | with no reply in any round there is no answer |
| Driver.FirstAnswerWitness | crosspoint_reader/driver.py:68-76 | an answer after silent rounds is the answer of the first round that hears one |
| Driver.DiscoveredIsFirstReply | crosspoint_reader/driver.py:62-76 | `Discovered`: within two seconds of the last attempt nothing is discovered; otherwise a result is the first round's reply, with a non-empty host and a non-zero port |
| Driver.BookLpath | crosspoint_reader/driver.py:182 | the lpath is the name with '/' put in front exactly when it is missing |
| Driver.BookListSnoc | crosspoint_reader/driver.py:173-197 | each entry adds its book when it is an EPUB file with a name, and nothing otherwise |
| Driver.BookListAppend | crosspoint_reader/driver.py:173-197 | the listing keeps the entries' order |
| Driver.BookListHas | crosspoint_reader/driver.py:173-197 | every EPUB file with a name is listed, with its lpath and size |
| Driver.BookListFrom | crosspoint_reader/driver.py:173-197 | every listed book comes from an EPUB file with a name |
| Driver.Norm | crosspoint_reader/driver.py:362-368 | `norm` gives '' exactly for '', and otherwise a path with no backslash that starts with '/' |
| Driver.NormSpells | crosspoint_reader/driver.py:362-368 | `norm` of a non-empty path is the path with every backslash made '/', with one '/' put in front exactly when it starts with neither '/' nor a backslash |
| Driver.NormIdempotent | crosspoint_reader/driver.py:362-368 | normalising twice is normalising once |
| Driver.NormKeeps | crosspoint_reader/driver.py:362-368 | a path already written with '/' only and starting with '/' is left unchanged |
| Driver.NormNameInDir | crosspoint_reader/driver.py:370-381 | `NormName` (`norm_name`) of a name is that of the name inside any folder |
| Driver.ListingPaths | crosspoint_reader/driver.py:384-394 | a path is on the device exactly when the name of a file, normalised with or without a leading '/', is that path |
| Driver.ListingNames | crosspoint_reader/driver.py:384-394 | a name is a device name exactly when it is a file's norm_name |
| Driver.ListingNamesEmpty | crosspoint_reader/driver.py:386-394 | there are device names exactly when there are device paths |
| Driver.AnyTarget | crosspoint_reader/driver.py:414-420 | some target path, normalised, equals one of the book's paths or shares its base name |
| Driver.KeptWhileOnDevice | crosspoint_reader/driver.py:400-412 | a book whose path is the name of a file on the device is kept by `ShouldRemove`, whatever NFKC and casefold do |
| Driver.EmptyDeviceDropsAll | crosspoint_reader/driver.py:407-412 | when the listing shows no file, `ShouldRemove` drops a book exactly when both its paths are non-empty |
| Driver.TargetDropped | crosspoint_reader/driver.py:413-418 | without a listing, `ShouldRemove` drops a book whose path is one of the paths to remove |
| Driver.KeptBooksSnoc | crosspoint_reader/driver.py:401-423 | each book is examined in turn and kept unless the decision drops it |
| Driver.KeptBooksMembers | crosspoint_reader/driver.py:401-423 | exactly the books the decision keeps remain, and no list grows |
| Driver.KeptListsEach | crosspoint_reader/driver.py:401-423 | the lists after the pass are the lists before it, each with the same filter applied to itself, in the same order |
| Driver.CrossPointDevice.constructor | crosspoint_reader/driver.py:41-46 | a new driver is not connected, knows no host or port, and has not probed |
| Driver.CrossPointDevice.DeviceStoreUuid | crosspoint_reader/driver.py:103-105 | the UUID of the discovered host, or of the configured host when none was discovered |
| Driver.CrossPointDevice.Discover | crosspoint_reader/driver.py:62-76 | `_discover` returns Discovered's answer; the time of the last probe moves to now only when two seconds have passed |
| Driver.CrossPointDevice.DetectManagedDevices | crosspoint_reader/driver.py:78-95 | a connected driver is kept without probing; a discovery records host and port and connects; a failure changes nothing but the probe time |
| Driver.CrossPointDevice.Eject | crosspoint_reader/driver.py:456-457 | the driver is disconnected |
| Driver.CrossPointDevice.StopPlugin | crosspoint_reader/driver.py:465-466 | the driver is disconnected |
| Driver.CrossPointDevice.Books | crosspoint_reader/driver.py:167-198 | nothing on a card; otherwise the listing's books, in order |
| Driver.CrossPointDevice.Listed | crosspoint_reader/driver.py:382-398 | the listing loop builds ListingOf the entries, or none when the request failed |
| Driver.CrossPointDevice.RemoveBooksFromMetadata | crosspoint_reader/driver.py:361-425 | each list keeps, in order, the books the decision keeps; removed counts the books dropped from all lists |
| Driver.CrossPointDevice.RemoveFrom | crosspoint_reader/driver.py:401-423 | one list keeps exactly KeptBooks of its snapshot |
| Driver.Zip | crosspoint_reader/driver.py:279 | `zip` pairs files and names up to the shorter of the two |
| Driver.CallFor | crosspoint_reader/driver.py:279-321 | the call goes to the given host and port and the configured folder, with the base name of the name and the chunk size ChunkClamp gives; the file is converted exactly when the conversion is wanted, and then the converted file is sent when the conversion gave one, else the original |
| Driver.Planned | crosspoint_reader/driver.py:279 | one call per (file, name) pair, the k-th being CallFor's call for the k-th pair |
| Driver.RunSnoc | crosspoint_reader/driver.py:279-322 | each call extends the loop so far |
| Driver.RunFailed | crosspoint_reader/driver.py:278-324 | after a failed call no further call is made |
| Driver.RunMakes | crosspoint_reader/driver.py:278-324 | the calls made are the planned ones up to the first that fails; every earlier one succeeded, and that one's error is the loop's |
| Driver.RunReports | crosspoint_reader/driver.py:322 | a finished loop reports, per call and in order, the file's lpath and the size of the file sent |
| Driver.PrepareCall | crosspoint_reader/driver.py:280-321 | the loop body builds CallFor's call |
| Driver.UploadBooks | crosspoint_reader/driver.py:263-334 | `upload_books` runs the planned calls to the discovered or configured host and port until one fails |
| BaselineJpeg.OutputPath | crosspoint_reader/baseline_jpeg.py:65-66 | the output path defaults to the EPUB's own path |
| BaselineJpeg.RenamableHasDot | crosspoint_reader/baseline_jpeg.py:80-81 | a name with a renamed extension has a dot |
| BaselineJpeg.JpgName | crosspoint_reader/baseline_jpeg.py:81-82 | the new name is the name up to its last '.', followed by '.jpg' |
| BaselineJpeg.JpegExtNotRenamed | crosspoint_reader/baseline_jpeg.py:80 | a lowercased name ending in .jpg or .jpeg has no renamed extension |
| BaselineJpeg.JpegNeverRenamed | crosspoint_reader/baseline_jpeg.py:78-83 | .jpg and .jpeg entries are never renamed |
| BaselineJpeg.Lookup | crosspoint_reader/baseline_jpeg.py:98-99 | `filename in renamed_files` holds exactly when some key is the name, and the value found is that key's |
| BaselineJpeg.RenamePlanSnoc | crosspoint_reader/baseline_jpeg.py:78-83 | each entry adds its pair when its name is a new PNG/GIF/WebP/BMP key |
| BaselineJpeg.RenamePlanExact | crosspoint_reader/baseline_jpeg.py:78-83 | `RenamePlan` renames exactly the entries with a PNG/GIF/WebP/BMP name, each to its .jpg name |
| BaselineJpeg.RenamePlanKeys | crosspoint_reader/baseline_jpeg.py:83 | the map's keys are distinct, as a dict's are |
| BaselineJpeg.PlanRenames | crosspoint_reader/baseline_jpeg.py:78-83 | the first pass builds RenamePlan(entries) |
| BaselineJpeg.RewriteUnreferenced | crosspoint_reader/baseline_jpeg.py:107-111 | `RewriteRefs` leaves text that mentions no old name or base name unchanged |
| BaselineJpeg.RewriteReferenced | crosspoint_reader/baseline_jpeg.py:107-111 | a text that names the first renamed image once by its basename, and nothing else of the map, has that basename replaced by the new one and keeps everything around it |
| BaselineJpeg.Rewrite | crosspoint_reader/baseline_jpeg.py:107-111 | the replace loop (`RewriteRefs`) applies every pair in map order, base name first, then full name |
| BaselineJpeg.OutputEach | crosspoint_reader/baseline_jpeg.py:87-147 | one written entry per input entry, in input order |
| BaselineJpeg.CountBounded | crosspoint_reader/baseline_jpeg.py:93-97 | `ConvertedCount` never exceeds the number of image entries, nor the number of entries |
| BaselineJpeg.CountAllConverted | crosspoint_reader/baseline_jpeg.py:93-97 | when every image converts, `ConvertedCount` counts every image |
| BaselineJpeg.WrittenEntry | crosspoint_reader/baseline_jpeg.py:92-147 | `WriteOf`: only mimetype is stored; non-images keep their names; a failed conversion keeps name and bytes; a converted image takes the converted bytes and, with a renamed extension, its .jpg name |
| BaselineJpeg.MimetypeUnchanged | crosspoint_reader/baseline_jpeg.py:142-143 | mimetype is written stored, under its own name, with its own bytes |
| BaselineJpeg.ContentIgnoresConversion | crosspoint_reader/baseline_jpeg.py:104-114 | a content file is rewritten with the whole map whatever the conversions do, and bytes that are not UTF-8 are left alone |
| BaselineJpeg.ZipOut.WriteStr | crosspoint_reader/baseline_jpeg.py:143-147 | `writestr` appends one entry to the archive |
| BaselineJpeg.ProcessEntry | crosspoint_reader/baseline_jpeg.py:88-147 | one entry is processed as WriteOf says, and counted exactly when its conversion gave bytes |
| BaselineJpeg.WriteEntry | crosspoint_reader/baseline_jpeg.py:87-147 | a loop pass writes the next entry and counts it |
| BaselineJpeg.ConvertEpubImages | crosspoint_reader/baseline_jpeg.py:65-158 | the map is planned from all entries first; the archive is Output(entries) in input order; the count is the number of images converted; the target is OutputPath |

## Left out

- Real sockets, `select`, UDP `sendto`/`recvfrom`, timeouts and `time.time()` are not modelled. Their effects are the parameters described above.
- WsClient.WebSocketClient.ReadText: the deadline is a budget of deadline checks. A blocking `_read_frame` that outlasts the deadline is not captured, because clocks are not modelled.
- `os.urandom` is not called. The masking keys and the handshake key are parameters, and every property holds for all of them.
- `Sec-WebSocket-Accept` validation and fragment reassembly are not modelled, because the code does neither.
- Logging (`_log`, `add_log`, the `debug` flag, the `logger` callbacks) is not modelled, because it has no effect on results. The Close frame's code and reason are only logged, so they are not modelled either.
- Sockets.Socket.Recv: every `recv(n)` returns exactly min(n, maxRecv, available) bytes, with one maxRecv for the whole connection. A real `recv` may return fewer bytes, and a different number on each call. `_recv_exact` gives the same bytes under any chunking, so the frame layer is unaffected. The bytes that `_read_http_response` swallows after the blank line do depend on the chunking, so `Handshake.HttpRead`, `Handshake.HttpReadTakesWholeChunk`, `Upload.OpenSpec`, `Upload.Open` and `Upload.UploadFile` fix the frames left pending after the handshake to those a uniform chunking leaves.
- Discovery.Received: `recvfrom(256)` is modelled as on POSIX, where a longer datagram is truncated to 256 bytes and still answers. On Windows, one of the plugin's supported platforms, `recvfrom` with too small a buffer raises (`WSAEMSGSIZE`), and `except Exception: break` then ends that round's listening with no answer. That branch is not modelled, so an oversized reply ends discovery in the model but not on Windows.
- Sockets.Socket.SendAll: a `sendall` call that raises is modelled as writing nothing. A real `sendall` may have written part of the data before it raises, and that partial prefix is not modelled.
- Sockets.Socket.Close is modelled as never raising. An exception from `sock.close()` in `close` is not modelled.
- The `settimeout` calls and exceptions other than those named in `Errors` are not modelled.
- The failures of the UDP `bind` and `getsockname` in `discover_device` are not modelled, because they are only logged. A failed `sendto` is swallowed, so every probe counts as sent.
- Upload.UploadFile: the file's bytes stand for both `os.path.getsize` and the reads. A file that changes during the upload is not modelled.
- `progress_cb` is not modelled as a call. Its arguments are the `progress` sequence. The float fractions of `report_progress` in `upload_books` are not modelled.
- Driver.UploadBooks: the `ControlError` for in-memory uploads (`hasattr(infile, 'read')`) is not modelled, because files are paths here. Temporary-file cleanup is not modelled either.
- `_convert_epub_to_baseline` is a given function: `shutil.copy2`, temporary files and the JPEG quality preference are not modelled.
- The metadata fetch of `books` (`fetch_metadata`, `get_metadata`) is not modelled, because it is calibre I/O. Titles are not modelled, only lpath and size.
- The HTTP helpers (`_http_get_json`, `_http_post_form`), `get_file`, `_download_temp` and `delete_books` are not modelled, because they are urllib I/O. A failed listing request is the `None` of `entries`.
- `open`, `reset`, `set_progress_reporter`, `card_prefix`, `total_space`, `free_space`, `sync_booklists`, the two `add_books_to_metadata` and `config.py` are not modelled. They are constants, calibre plumbing or configuration UI.
- Driver.CrossPointDevice.RemoveBooksFromMetadata: the lists are returned rather than changed in place through `remove_book`, and aliasing between calibre's lists is not modelled. A book is a (path, lpath) pair.
- Driver.NormName: NFKC normalisation and `casefold` are given functions.
- Text.Basename: the model is POSIX `os.path.basename`, which splits only at '/'. On Windows, one of the plugin's supported platforms, `os.path` is `ntpath`, whose `basename` also splits at `\` and after a drive prefix such as `C:`. So for a Windows path like `C:\Users\me\book.epub` the model's base name is the whole string, where Windows gives `book.epub`. This affects every `os.path.basename` call of `driver.py`: the file names `upload_books` sends and the lpaths built from them (`Driver.CallFor`, `Driver.PrepareCall`), the device names of `norm_name` (`Driver.NormName`) and the name matching of `remove_books_from_metadata` (`Driver.ShouldRemove`). `split('/')[-1]` in `baseline_jpeg.py` is matched exactly on every platform.
- Text.Lower: ASCII only. Python's `lower` also lowers non-ASCII letters. This matters only for the extension tests, which are all ASCII.
- Text.ParseInt: surrounding white space, one sign and ASCII decimal digits. Underscores between digits and non-ASCII digits, which Python's `int()` also accepts, are not modelled.
- BaselineJpeg.ConvertEpubImages: the entries of the archive are assumed to have distinct names. For duplicates, `zin.read(name)` returns the bytes of the last entry with that name, and this is not modelled.
- BaselineJpeg.ConvertEpubImages: ZIP reading, compression and the final `shutil.move` are not modelled, and neither is the clean-up after an exception. The archive is the sequence of written entries with a stored-or-deflated flag.
- BaselineJpeg.RewriteOpf: the two OPF media-type `re.sub` fixes are one given function, `fixOpf`, because regular expressions are not modelled.
- The image conversion `convert_image_to_baseline` is a given function, because PIL decoding and encoding are not modelled.
