/** The HTTP upgrade of `connect`: the request text, how much of the reply
    `_read_http_response` reads, and the test on the reply's status line. */
module Handshake {
  import opened Wrappers
  import opened Bytes
  import opened Errors
  import opened Text
  import opened Utf8
  import opened Sockets

  /** The recv size of the response loop. */
  const RESPONSE_CHUNK: nat := 1024
  /** b'\r\n\r\n', the blank line that ends the reply's header block. */
  const HEADER_END: seq<byte> := [13, 10, 13, 10]
  /** b' 101 ', the status code of Switching Protocols with its surrounding spaces. */
  const STATUS_101: seq<byte> := [32, 49, 48, 49, 32]

  /** The fixed text of the upgrade request, up to the host, between the port and the key,
      and after the key. */
  const REQUEST_HEAD: string := "GET / HTTP/1.1\r\nHost: "
  const UPGRADE: string := "\r\nUpgrade: websocket"
  const CONNECTION: string := "\r\nConnection: Upgrade"
  const KEY_FIELD: string := "\r\nSec-WebSocket-Key: "
  const REQUEST_TAIL: string := "\r\nSec-WebSocket-Version: 13\r\n\r\n"

  /** The upgrade request for host:port with the given Sec-WebSocket-Key: the request line,
      the Host, Upgrade, Connection, Sec-WebSocket-Key and Sec-WebSocket-Version headers,
      and the blank line. */
  function Request(host: string, port: int, key: string): string
  {
    REQUEST_HEAD + host + ":" + IntToString(port) + UPGRADE + CONNECTION + KEY_FIELD + key
    + REQUEST_TAIL
  }

  // The fixed text is ASCII, one piece at a time (the solver takes a long literal slowly).
  lemma HeadIsAscii() ensures IsAscii(REQUEST_HEAD) && IsAscii(":") {}
  lemma UpgradeIsAscii() ensures IsAscii(UPGRADE) {}
  lemma ConnectionIsAscii() ensures IsAscii(CONNECTION) {}
  lemma KeyFieldIsAscii() ensures IsAscii(KEY_FIELD) {}
  lemma TailIsAscii() ensures IsAscii(REQUEST_TAIL) {}

  lemma PortIsAscii(port: int)
    ensures IsAscii(IntToString(port))
  {
    if port < 0 {
      AsciiConcat("-", NatToString(-port));
    }
  }

  /** `req.encode('ascii')` fails exactly when the host or the key holds a character
      outside ASCII; everything else in the request is ASCII. */
  lemma RequestEncodable(host: string, port: int, key: string)
    ensures AsciiEncode(Request(host, port, key)).Some? <==> IsAscii(host) && IsAscii(key)
  {
    var a := REQUEST_HEAD + host;
    var b := a + ":" + IntToString(port);
    var c := b + UPGRADE + CONNECTION + KEY_FIELD;
    var d := c + key;
    PortIsAscii(port);
    HeadIsAscii();
    UpgradeIsAscii();
    ConnectionIsAscii();
    KeyFieldIsAscii();
    TailIsAscii();
    AsciiConcat(REQUEST_HEAD, host);
    AsciiConcat(a, ":");
    AsciiConcat(a + ":", IntToString(port));
    AsciiConcat(b, UPGRADE);
    AsciiConcat(b + UPGRADE, CONNECTION);
    AsciiConcat(b + UPGRADE + CONNECTION, KEY_FIELD);
    AsciiConcat(c, key);
    AsciiConcat(d, REQUEST_TAIL);
  }

  /** What `_read_http_response` returns when the peer's remaining stream is u and one recv
      delivers at most k bytes, having read `data` already: recv chunks are appended until
      the blank line has arrived or the stream ends. */
  function HttpRead(u: seq<byte>, k: nat, data: seq<byte>): (r: seq<byte>)
    requires k > 0
    ensures |data| <= |r| <= |data| + |u| && r == data + u[..|r| - |data|]
    decreases |u|
  {
    if Occurs(HEADER_END, data) || u == [] then data
    else
      var n := Min(k, |u|);
      HttpRead(u[n..], k, data + u[..n])
  }

  lemma OccursInLonger(needle: seq<byte>, a: seq<byte>, b: seq<byte>)
    requires Occurs(needle, a)
    ensures Occurs(needle, a + b)
  {
    var i :| 0 <= i <= |a| - |needle| && OccursAt(needle, a, i);
    assert (a + b)[i..i + |needle|] == a[i..i + |needle|];
    assert OccursAt(needle, a + b, i);
  }

  /** The loop stops only once the blank line has arrived, or when the stream ends. */
  lemma {:induction false} HttpReadStops(u: seq<byte>, k: nat, data: seq<byte>)
    requires k > 0
    ensures var r := HttpRead(u, k, data); Occurs(HEADER_END, r) || r == data + u
    decreases |u|
  {
    if !Occurs(HEADER_END, data) && u != [] {
      var n := Min(k, |u|);
      HttpReadStops(u[n..], k, data + u[..n]);
      assert data + u[..n] + u[n..] == data + u;
    }
  }

  /** A reply without a blank line is read to the end of the stream. */
  lemma HttpReadWithoutEnd(u: seq<byte>, k: nat, data: seq<byte>)
    requires k > 0 && !Occurs(HEADER_END, data + u)
    ensures HttpRead(u, k, data) == data + u
  {
    var r := HttpRead(u, k, data);
    HttpReadStops(u, k, data);
    if Occurs(HEADER_END, r) {
      var m := |r| - |data|;
      assert data + u == r + u[m..];
      OccursInLonger(HEADER_END, r, u[m..]);
    }
  }

  /** Whatever arrives in the same recv chunk as the blank line is consumed with the
      reply: when the rest of the stream fits in one chunk, all of it is read, so no frame
      the peer sent right behind the reply is left for `_read_frame`. */
  lemma HttpReadTakesWholeChunk(u: seq<byte>, k: nat)
    requires k > 0 && 0 < |u| <= k
    ensures HttpRead(u, k, []) == u
  {
    assert !Occurs(HEADER_END, []);
    assert u[|u|..] == [];
  }

  /** No CR immediately followed by LF. */
  predicate NoCrlf(s: seq<byte>)
  {
    forall i :: 0 <= i < |s| - 1 ==> !(s[i] == 13 && s[i + 1] == 10)
  }

  /** `data.split(b'\r\n', 1)[0]`: everything before the first CRLF, or all of data. */
  function FirstLine(d: seq<byte>): (r: seq<byte>)
    ensures r <= d && NoCrlf(r)
    ensures r == d || (|r| + 2 <= |d| && d[|r|] == 13 && d[|r| + 1] == 10)
  {
    if |d| < 2 then d
    else if d[0] == 13 && d[1] == 10 then []
    else [d[0]] + FirstLine(d[1..])
  }

  /** The first line of a status line, CRLF and anything else is the status line. */
  lemma FirstLineOf(line: seq<byte>, rest: seq<byte>)
    requires NoCrlf(line)
    ensures FirstLine(line + [13, 10] + rest) == line
  {
    var d := line + [13, 10] + rest;
    var r := FirstLine(d);
    assert d[|line|] == 13 && d[|line| + 1] == 10;
    assert r == d[..|r|] && line == d[..|line|];
  }

  /** The handshake succeeds when ' 101 ' appears in the first line of the reply, and
      otherwise fails with that line decoded as ASCII, ignoring other bytes. */
  function HandshakeResult(data: seq<byte>): Result<(), Error>
  {
    var line := FirstLine(data);
    if Occurs(STATUS_101, line) then Success(()) else Failure(HandshakeFailed(AsciiIgnore(line)))
  }

  /** Only the status line decides: ' 101 ' in a later header line does not count. */
  lemma HandshakeOnStatusLine(line: seq<byte>, rest: seq<byte>)
    requires NoCrlf(line)
    ensures HandshakeResult(line + [13, 10] + rest)
      == if Occurs(STATUS_101, line) then Success(()) else Failure(HandshakeFailed(AsciiIgnore(line)))
  {
    FirstLineOf(line, rest);
  }
}
