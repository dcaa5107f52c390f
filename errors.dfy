/** The failures the client, the upload session and their callers can raise. In the source
    all but the last four are `WebSocketError` with a fixed message. */
module Errors {

  datatype Error =
    | NotConnected                             // 'Socket not connected'
    | SocketClosed                             // 'Socket closed': recv returned no bytes
    | ConnectionClosed                         // 'Connection closed': a Close frame arrived
    | TimedOut                                 // 'Timed out waiting for text frame'
    | HandshakeFailed(statusLine: string)      // 'Handshake failed: ' + the status line
    | UnexpectedResponse(reply: string)        // 'Unexpected response: ' + reply ('<empty>')
    | DeviceError(message: string)             // the device's 'ERROR...' text, verbatim
    | LengthOverflow                           // struct.error: no 64-bit length field fits
    | EncodingError                            // UnicodeEncodeError: non-ASCII request text
    | SocketError                              // OSError: refused connection, broken pipe
    | ReadLengthInvalid                        // ValueError: f.read with a size below -1
}
