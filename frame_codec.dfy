/** Client-side WebSocket framing (section 5.2 of RFC 6455): FIN and opcode byte, the mask
    bit and the 7-, 16- or 64-bit payload length, the 4-byte masking key and the XOR masking
    of section 5.3. The client never fragments, so FIN is always set. */
module FrameCodec {
  import opened Wrappers
  import opened Bytes
  import opened Errors

  /** A masking key; the source draws it from os.urandom(4), here it is a parameter. */
  type Mask = m: seq<byte> | |m| == 4 witness [0, 0, 0, 0]

  /** A decoded frame: the low four bits of the first byte and the unmasked payload. */
  datatype Frame = Frame(opcode: nat, payload: seq<byte>)

  const OP_TEXT: nat := 0x1
  const OP_BINARY: nat := 0x2
  const OP_CLOSE: nat := 0x8
  const OP_PING: nat := 0x9
  const OP_PONG: nat := 0xA

  const FIN: byte := 0x80
  const MASK_BIT: byte := 0x80

  /** 2^64: the first payload length the 8-byte field cannot hold. */
  const LENGTH_LIMIT: nat := 0x1_0000_0000_0000_0000

  lemma Pow256Values()
    ensures Pow256(2) == 0x1_0000 && Pow256(8) == LENGTH_LIMIT
  {
    calc {
      Pow256(8);
      256 * Pow256(7);
      256 * (256 * Pow256(6));
      256 * (256 * (256 * Pow256(5)));
      256 * (256 * (256 * (256 * Pow256(4))));
      256 * (256 * (256 * (256 * (256 * Pow256(3)))));
      256 * (256 * (256 * (256 * (256 * (256 * Pow256(2))))));
      256 * (256 * (256 * (256 * (256 * (256 * (256 * Pow256(1)))))));
      256 * (256 * (256 * (256 * (256 * (256 * (256 * (256 * Pow256(0))))))));
    }
  }

  /** The first header byte: FIN set, the opcode's low four bits. */
  function FirstByte(opcode: int): (b: byte)
    ensures OpcodeBits(b) == opcode % 16
  {
    ByteValue(opcode % 16);
    FIN | (opcode % 16) as byte
  }

  function OpcodeBits(b: byte): (r: nat)
    ensures r < 16
  {
    (b & 0x0F) as nat
  }

  predicate HasMask(b: byte)
  {
    b & MASK_BIT != 0
  }

  function LengthMarker(b: byte): (r: nat)
    ensures r < 128
  {
    (b & 0x7F) as nat
  }

  /** The second header byte a client sends: mask bit set, then the 7-bit length marker. */
  function SecondByte(marker: nat): (b: byte)
    requires marker < 128
    ensures HasMask(b) && LengthMarker(b) == marker
  {
    ByteValue(marker);
    MASK_BIT | marker as byte
  }

  /** Size of the extended length field chosen for a payload of n bytes: the smallest
      that holds n. */
  function ExtendedLength(n: nat): nat
  {
    if n <= 125 then 0 else if n <= 65535 then 2 else 8
  }

  /** The 7-bit marker chosen for a payload of n bytes. */
  function MarkerFor(n: nat): (m: nat)
    ensures m < 128
  {
    if n <= 125 then n else if n <= 65535 then 126 else 127
  }

  /** Number of bytes the marker in the second header byte says the extended length has. */
  function MarkerExtension(marker: nat): nat
  {
    if marker == 126 then 2 else if marker == 127 then 8 else 0
  }

  /** The second header byte followed by the extended length field. */
  function LengthField(n: nat): (r: seq<byte>)
    requires n < LENGTH_LIMIT
    ensures |r| == 1 + ExtendedLength(n)
  {
    Pow256Values();
    [SecondByte(MarkerFor(n))]
      + (if n <= 125 then [] else if n <= 65535 then ToBigEndian(n, 2) else ToBigEndian(n, 8))
  }

  /** Payload byte i XORed with mask[i % 4]; the same operation masks and unmasks. */
  function Masked(p: seq<byte>, mask: seq<byte>): (r: seq<byte>)
    requires |mask| == 4
    ensures |r| == |p|
  {
    seq(|p|, i requires 0 <= i < |p| => p[i] ^ mask[i % 4])
  }

  lemma MaskedTwice(p: seq<byte>, mask: Mask)
    ensures Masked(Masked(p, mask), mask) == p
  {
  }

  /** The bytes `_send_frame` hands to sendall, or the struct.error raised for a payload
      whose length does not fit 64 bits. */
  function EncodeFrame(opcode: int, payload: seq<byte>, mask: Mask): (r: Result<seq<byte>, Error>)
    ensures r.Success? <==> |payload| < LENGTH_LIMIT
    ensures r.Failure? ==> r.error == LengthOverflow
    ensures r.Success? ==> |r.value| == 2 + ExtendedLength(|payload|) + 4 + |payload|
  {
    if |payload| >= LENGTH_LIMIT then Failure(LengthOverflow)
    else Success([FirstByte(opcode)] + LengthField(|payload|) + mask + Masked(payload, mask))
  }

  /** What the fixed part of a frame header says: opcode, whether a masking key follows,
      the payload length, and the number of header bytes including the key. */
  datatype Header = Header(opcode: nat, masked: bool, length: nat, size: nat)

  /** Header bytes, key included, announced by the second header byte b. */
  function HeaderSize(b: byte): (n: nat)
    ensures 2 <= n <= 14 && (HasMask(b) ==> n >= 6)
  {
    2 + MarkerExtension(LengthMarker(b)) + (if HasMask(b) then 4 else 0)
  }

  /** The payload length a header announces: the 7-bit marker, or the 16- or 64-bit
      big-endian field after it. */
  function PayloadLength(s: seq<byte>): nat
    requires |s| >= 2 && |s| >= 2 + MarkerExtension(LengthMarker(s[1]))
  {
    var ext := MarkerExtension(LengthMarker(s[1]));
    if ext == 0 then LengthMarker(s[1]) else FromBigEndian(s[2..2 + ext])
  }

  /** The header at the front of s, or None when s ends inside it. */
  function DecodeHeader(s: seq<byte>): (r: Option<Header>)
    ensures r.Some? ==>
      && 2 <= r.value.size <= |s| && r.value.opcode < 16
      && (r.value.masked ==> r.value.size >= 6)
  {
    if |s| < 2 || |s| < HeaderSize(s[1]) then None
    else Some(Header(OpcodeBits(s[0]), HasMask(s[1]), PayloadLength(s), HeaderSize(s[1])))
  }

  /** DecodeHeader in the order `_read_frame` reads: after the two fixed bytes come the
      extended length, if any, and then the key, if any. */
  lemma DecodeHeaderAfter(b1: byte, b2: byte, u: seq<byte>)
    ensures var ext := MarkerExtension(LengthMarker(b2));
      var k := ext + (if HasMask(b2) then 4 else 0);
      DecodeHeader([b1, b2] + u)
        == if |u| < k then None
           else Some(Header(OpcodeBits(b1), HasMask(b2),
                            if ext == 0 then LengthMarker(b2) else FromBigEndian(u[..ext]), 2 + k))
  {
    var s := [b1, b2] + u;
    var ext := MarkerExtension(LengthMarker(b2));
    assert s[0] == b1 && s[1] == b2;
    if ext > 0 && ext <= |u| {
      assert s[2..2 + ext] == u[..ext];
    }
  }

  /** A header seen as its two fixed bytes and what follows them. */
  lemma HeaderAfterTwo(s: seq<byte>)
    requires |s| >= 2
    ensures DecodeHeader(s) == DecodeHeader([s[0], s[1]] + s[2..])
    ensures DecodeHeader(s).Some? && DecodeHeader(s).value.masked ==>
      var h := DecodeHeader(s).value;
      s[h.size - 4..h.size] == s[2..][h.size - 6..h.size - 2]
  {
    assert s == [s[0], s[1]] + s[2..];
  }

  /** `_read_frame` on a byte stream: the frame at the front of s and the number of bytes
      it occupies, or the 'Socket closed' failure of `_recv_exact` when s ends inside it. */
  function DecodeFrame(s: seq<byte>): (r: Result<(Frame, nat), Error>)
    ensures r.Failure? ==> r.error == SocketClosed
    ensures r.Success? ==>
      2 <= r.value.1 <= |s| && r.value.0.opcode < 16
  {
    var h := DecodeHeader(s);
    if h.None? || |s| < h.value.size + h.value.length then Failure(SocketClosed)
    else Success((Frame(h.value.opcode, Payload(s, h.value)), h.value.size + h.value.length))
  }

  /** The payload bytes that follow header h at the front of s, unmasked when the header
      carries a key. */
  function Payload(s: seq<byte>, h: Header): (p: seq<byte>)
    requires 2 <= h.size && (h.masked ==> h.size >= 6) && h.size + h.length <= |s|
    ensures |p| == h.length
  {
    var body := s[h.size..h.size + h.length];
    if h.masked then Masked(body, s[h.size - 4..h.size]) else body
  }

  /** The payload of header h read from u, the bytes after the header, is Payload(s, h). */
  lemma PayloadSlice(s: seq<byte>, h: Header, u: seq<byte>)
    requires 2 <= h.size && (h.masked ==> h.size >= 6) && h.size + h.length <= |s| && u == s[h.size..]
    ensures Payload(s, h) == if h.masked then Masked(u[..h.length], s[h.size - 4..h.size]) else u[..h.length]
  {
    assert u[..h.length] == s[h.size..h.size + h.length];
  }

  /** The header of an encoded frame says what was encoded, whatever follows it. */
  lemma {:induction false} DecodeEncodedHeader(opcode: int, n: nat, tail: seq<byte>)
    requires n < LENGTH_LIMIT && |tail| >= 4
    ensures DecodeHeader([FirstByte(opcode)] + LengthField(n) + tail)
         == Some(Header(opcode % 16, true, n, 6 + ExtendedLength(n)))
  {
    var s := [FirstByte(opcode)] + LengthField(n) + tail;
    var ext := ExtendedLength(n);
    assert s[0] == FirstByte(opcode);
    assert s[1] == SecondByte(MarkerFor(n));
    assert MarkerExtension(LengthMarker(s[1])) == ext;
    Pow256Values();
    if ext == 2 {
      assert s[2..4] == ToBigEndian(n, 2);
      FromToBigEndian(n, 2);
    } else if ext == 8 {
      assert s[2..10] == ToBigEndian(n, 8);
      FromToBigEndian(n, 8);
    }
  }

  /** Layout of an encoded frame: FIN and the opcode, the mask bit, the smallest length
      field that holds the payload length, the key, then the masked payload. */
  lemma EncodeLayout(opcode: int, payload: seq<byte>, mask: Mask)
    requires |payload| < LENGTH_LIMIT
    ensures var w, n := EncodeFrame(opcode, payload, mask).value, |payload|;
      var ext := ExtendedLength(n);
      && w[0] & FIN == FIN && OpcodeBits(w[0]) == opcode % 16
      && HasMask(w[1]) && LengthMarker(w[1]) == MarkerFor(n)
      && (ext > 0 ==> FromBigEndian(w[2..2 + ext]) == n)
      && w[2 + ext..6 + ext] == mask
      && w[6 + ext..] == Masked(payload, mask)
  {
    var w, n := EncodeFrame(opcode, payload, mask).value, |payload|;
    var ext := ExtendedLength(n);
    var tail := mask + Masked(payload, mask);
    assert w == [FirstByte(opcode)] + LengthField(n) + tail;
    DecodeEncodedHeader(opcode, n, tail);
    assert w[6 + ext..] == Masked(payload, mask);
    ByteValue(opcode % 16);
    Pow256Values();
    if ext == 2 {
      assert w[2..4] == ToBigEndian(n, 2);
      FromToBigEndian(n, 2);
    } else if ext == 8 {
      assert w[2..10] == ToBigEndian(n, 8);
      FromToBigEndian(n, 8);
    }
  }

  /** Round trip: whatever the mask and whatever follows, decoding an encoded frame gives
      back the opcode's low four bits and the payload, and consumes exactly the frame. */
  lemma DecodeEncode(opcode: int, payload: seq<byte>, mask: Mask, rest: seq<byte>)
    requires |payload| < LENGTH_LIMIT
    ensures var w := EncodeFrame(opcode, payload, mask).value;
      DecodeFrame(w + rest) == Success((Frame(opcode % 16, payload), |w|))
  {
    var w := EncodeFrame(opcode, payload, mask).value;
    var n := |payload|;
    var ext := ExtendedLength(n);
    var tail := mask + Masked(payload, mask) + rest;
    var s := w + rest;
    assert s == [FirstByte(opcode)] + LengthField(n) + tail;
    DecodeEncodedHeader(opcode, n, tail);
    var h := Header(opcode % 16, true, n, 6 + ext);
    assert s[6 + ext - 4..6 + ext] == mask;
    assert s[6 + ext..6 + ext + n] == Masked(payload, mask);
    assert Payload(s, h) == Masked(Masked(payload, mask), mask);
    MaskedTwice(payload, mask);
    assert |w| == h.size + h.length;
  }

  /** A header is decided by its own bytes. */
  lemma HeaderOnlyReadsPrefix(s: seq<byte>, t: seq<byte>)
    requires DecodeHeader(s).Some?
    requires DecodeHeader(s).value.size <= |t|
    requires t[..DecodeHeader(s).value.size] == s[..DecodeHeader(s).value.size]
    ensures DecodeHeader(t) == DecodeHeader(s)
  {
    var size := DecodeHeader(s).value.size;
    assert t[0] == s[0] && t[1] == s[1];
    var ext := MarkerExtension(LengthMarker(s[1]));
    assert t[2..2 + ext] == s[..size][2..2 + ext] == s[2..2 + ext];
  }

  /** A frame is decided by its own bytes: any stream that starts with them decodes to the
      same frame, whatever comes after. */
  lemma DecodeOnlyReadsFrame(s: seq<byte>, t: seq<byte>)
    requires DecodeFrame(s).Success?
    requires DecodeFrame(s).value.1 <= |t| && t[..DecodeFrame(s).value.1] == s[..DecodeFrame(s).value.1]
    ensures DecodeFrame(t) == DecodeFrame(s)
  {
    var n := DecodeFrame(s).value.1;
    var h := DecodeHeader(s).value;
    assert t[..h.size] == t[..n][..h.size] == s[..n][..h.size] == s[..h.size];
    HeaderOnlyReadsPrefix(s, t);
    assert t[h.size..n] == t[..n][h.size..n] == s[..n][h.size..n] == s[h.size..n];
    if h.masked {
      assert t[h.size - 4..h.size] == t[..n][h.size - 4..h.size] == s[..n][h.size - 4..h.size] == s[h.size - 4..h.size];
    }
  }

  /** `_recv_exact` never returns a short read: a stream that stops inside a frame is the
      'Socket closed' failure, never a shorter frame. */
  lemma DecodeTruncated(s: seq<byte>, k: nat)
    requires DecodeFrame(s).Success? && k < DecodeFrame(s).value.1
    ensures DecodeFrame(s[..k]) == Failure(SocketClosed)
  {
    var h := DecodeHeader(s).value;
    var t := s[..k];
    if k >= h.size {
      assert t[..h.size] == s[..h.size];
      HeaderOnlyReadsPrefix(s, t);
    } else if |t| >= 2 {
      assert t[0] == s[0] && t[1] == s[1];
      var ext := MarkerExtension(LengthMarker(s[1]));
      if |t| >= 2 + ext {
        assert t[2..2 + ext] == s[2..2 + ext];
      }
    }
  }

  /** Every proper prefix of an encoded frame is a truncated frame. */
  lemma EncodedPrefixIsTruncated(opcode: int, payload: seq<byte>, mask: Mask, k: nat)
    requires |payload| < LENGTH_LIMIT
    requires k < |EncodeFrame(opcode, payload, mask).value|
    ensures DecodeFrame(EncodeFrame(opcode, payload, mask).value[..k]) == Failure(SocketClosed)
  {
    var w := EncodeFrame(opcode, payload, mask).value;
    DecodeEncode(opcode, payload, mask, []);
    assert w + [] == w;
    DecodeTruncated(w, k);
  }

  /** A decoding step: one frame and the bytes it took, from the front of a stream. */
  type Step = seq<byte> -> Result<(Frame, nat), Error>

  /** The step takes at least one byte and no more than it is given. */
  ghost predicate Advances(step: Step)
  {
    forall s :: step(s).Success? ==> 0 < step(s).value.1 <= |s|
  }

  /** The step's answer depends only on the bytes it takes. */
  ghost predicate Local(step: Step)
  {
    forall s, t {:trigger step(s), step(t)} ::
      step(s).Success? && step(s).value.1 <= |s| && step(s).value.1 <= |t|
      && t[..step(s).value.1] == s[..step(s).value.1]
      ==> step(t) == step(s)
  }

  /** The items at the front of s, taken one after another until a step fails. */
  function Parse(step: Step, s: seq<byte>): seq<Frame>
    requires Advances(step)
    decreases |s|
  {
    match step(s)
    case Failure(_) => []
    case Success((f, n)) => [f] + Parse(step, s[n..])
  }

  /** The bytes Parse leaves. */
  function Rest(step: Step, s: seq<byte>): (r: seq<byte>)
    requires Advances(step)
    ensures |r| <= |s|
    decreases |s|
  {
    match step(s)
    case Failure(_) => s
    case Success((f, n)) => Rest(step, s[n..])
  }

  /** A step that succeeds on a succeeds the same way on a followed by anything. */
  lemma StepAppend(step: Step, a: seq<byte>, b: seq<byte>)
    requires Advances(step) && Local(step) && step(a).Success?
    ensures step(a + b) == step(a)
    ensures (a + b)[step(a).value.1..] == a[step(a).value.1..] + b
  {
    var n := step(a).value.1;
    assert (a + b)[..n] == a[..n];
  }

  /** Whole items followed by anything parse as those items followed by the items of the
      rest. */
  lemma {:induction false} ParseAppend(step: Step, a: seq<byte>, b: seq<byte>)
    requires Advances(step) && Local(step) && Rest(step, a) == []
    ensures Parse(step, a + b) == Parse(step, a) + Parse(step, b)
    decreases |a|
  {
    if a == [] {
      assert a + b == b;
    } else {
      var n := step(a).value.1;
      StepAppend(step, a, b);
      ParseAppend(step, a[n..], b);
    }
  }

  /** What whole items followed by b leave is what b leaves. */
  lemma {:induction false} RestAppend(step: Step, a: seq<byte>, b: seq<byte>)
    requires Advances(step) && Local(step) && Rest(step, a) == []
    ensures Rest(step, a + b) == Rest(step, b)
    decreases |a|
  {
    if a == [] {
      assert a + b == b;
    } else {
      var n := step(a).value.1;
      StepAppend(step, a, b);
      RestAppend(step, a[n..], b);
    }
  }

  lemma DecodeFrameAdvances()
    ensures Advances(DecodeFrame)
  {
  }

  lemma DecodeFrameIsLocal()
    ensures Local(DecodeFrame)
  {
    forall s, t | DecodeFrame(s).Success? && DecodeFrame(s).value.1 <= |t|
        && t[..DecodeFrame(s).value.1] == s[..DecodeFrame(s).value.1]
      ensures DecodeFrame(t) == DecodeFrame(s)
    {
      DecodeOnlyReadsFrame(s, t);
    }
  }

  /** The frames at the front of a byte stream, decoded one after another until the rest
      does not hold a whole frame. */
  function DecodeAll(s: seq<byte>): seq<Frame>
  {
    DecodeFrameAdvances();
    Parse(DecodeFrame, s)
  }

  /** The bytes left once DecodeAll has taken every whole frame. */
  function Leftover(s: seq<byte>): (r: seq<byte>)
    ensures |r| <= |s|
  {
    DecodeFrameAdvances();
    Rest(DecodeFrame, s)
  }

  lemma DecodeAllStep(s: seq<byte>)
    requires DecodeFrame(s).Success?
    ensures DecodeAll(s) == [DecodeFrame(s).value.0] + DecodeAll(s[DecodeFrame(s).value.1..])
    ensures Leftover(s) == Leftover(s[DecodeFrame(s).value.1..])
  {
  }

  lemma DecodeAllStop(s: seq<byte>)
    requires DecodeFrame(s).Failure?
    ensures DecodeAll(s) == [] && Leftover(s) == s
  {
  }

  /** The first frame DecodeAll yields is the one DecodeFrame reads, and there is none
      exactly when DecodeFrame fails. */
  lemma DecodeAllNext(s: seq<byte>)
    ensures DecodeAll(s) == [] <==> DecodeFrame(s).Failure?
    ensures DecodeFrame(s).Success? ==>
      DecodeAll(s)[0] == DecodeFrame(s).value.0 && DecodeAll(s)[1..] == DecodeAll(s[DecodeFrame(s).value.1..])
  {
    if DecodeFrame(s).Success? {
      DecodeAllStep(s);
    } else {
      DecodeAllStop(s);
    }
  }

  lemma DecodeAllEmpty()
    ensures DecodeAll([]) == [] && Leftover([]) == []
  {
  }

  /** A stream of whole frames followed by anything decodes as those frames followed by
      the frames of the rest. */
  lemma DecodeAllAppend(a: seq<byte>, b: seq<byte>)
    requires Leftover(a) == []
    ensures DecodeAll(a + b) == DecodeAll(a) + DecodeAll(b)
    ensures Leftover(a + b) == Leftover(b)
  {
    DecodeFrameAdvances();
    DecodeFrameIsLocal();
    ParseAppend(DecodeFrame, a, b);
    RestAppend(DecodeFrame, a, b);
  }

  /** Appending one encoded frame to a stream of whole frames adds exactly that frame. */
  lemma AppendEncodedFrame(a: seq<byte>, opcode: int, payload: seq<byte>, mask: Mask)
    requires Leftover(a) == [] && |payload| < LENGTH_LIMIT
    ensures var w := EncodeFrame(opcode, payload, mask).value;
      && DecodeAll(a + w) == DecodeAll(a) + [Frame(opcode % 16, payload)]
      && Leftover(a + w) == []
  {
    var w := EncodeFrame(opcode, payload, mask).value;
    DecodeEncode(opcode, payload, mask, []);
    assert w + [] == w;
    assert w[|w|..] == [];
    DecodeAllStep(w);
    DecodeAllEmpty();
    DecodeAllAppend(a, w);
  }

  lemma EncodedFrameAlone(opcode: int, payload: seq<byte>, mask: Mask)
    requires |payload| < LENGTH_LIMIT
    ensures var w := EncodeFrame(opcode, payload, mask).value;
      DecodeAll(w) == [Frame(opcode % 16, payload)] && Leftover(w) == []
  {
    var w := EncodeFrame(opcode, payload, mask).value;
    AppendEncodedFrame([], opcode, payload, mask);
    assert [] + w == w;
    DecodeAllEmpty();
  }

  lemma OpcodeBitsOfSmall(opcode: nat)
    requires opcode < 16
    ensures opcode % 16 == opcode
  {
  }

  /** Only the low four bits of the opcode reach the wire. */
  lemma EncodeLowBits(opcode: int, payload: seq<byte>, mask: Mask)
    ensures EncodeFrame(opcode % 16, payload, mask) == EncodeFrame(opcode, payload, mask)
  {
    assert FirstByte(opcode % 16) == FirstByte(opcode);
  }

  /** The bytes of a sequence of frames sent one after the other. */
  function Concat(wire: seq<seq<byte>>): (r: seq<byte>)
  {
    if wire == [] then [] else Concat(wire[..|wire| - 1]) + wire[|wire| - 1]
  }

  lemma ConcatAppend(wire: seq<seq<byte>>, w: seq<byte>)
    ensures Concat(wire + [w]) == Concat(wire) + w
  {
    assert (wire + [w])[..|wire|] == wire;
  }

  /** wire[i] is frame i of frames as the client sends it, masked with masks[i]. */
  predicate Encodes(wire: seq<seq<byte>>, frames: seq<Frame>, masks: seq<Mask>)
  {
    && |wire| == |frames| && |masks| == |frames|
    && forall i :: 0 <= i < |frames| ==>
         && frames[i].opcode < 16 && |frames[i].payload| < LENGTH_LIMIT
         && wire[i] == EncodeFrame(frames[i].opcode, frames[i].payload, masks[i]).value
  }

  lemma EncodesAppend(wire: seq<seq<byte>>, frames: seq<Frame>, masks: seq<Mask>, f: Frame, m: Mask)
    requires Encodes(wire, frames, masks) && f.opcode < 16 && |f.payload| < LENGTH_LIMIT
    ensures Encodes(wire + [EncodeFrame(f.opcode, f.payload, m).value], frames + [f], masks + [m])
  {
  }

  /** The bytes a client sends for a queue of frames, under any masking keys, decode to
      exactly that queue with nothing left over. */
  lemma {:induction false} DecodeSent(wire: seq<seq<byte>>, frames: seq<Frame>, masks: seq<Mask>)
    requires Encodes(wire, frames, masks)
    ensures DecodeAll(Concat(wire)) == frames && Leftover(Concat(wire)) == []
  {
    if wire == [] {
      DecodeAllEmpty();
    } else {
      var n := |wire| - 1;
      var f, m := frames[n], masks[n];
      assert Encodes(wire[..n], frames[..n], masks[..n]);
      DecodeSent(wire[..n], frames[..n], masks[..n]);
      AppendEncodedFrame(Concat(wire[..n]), f.opcode, f.payload, m);
      OpcodeBitsOfSmall(f.opcode);
      LastSplit(frames);
    }
  }

  lemma LastSplit<T>(s: seq<T>)
    requires s != []
    ensures s[..|s| - 1] + [s[|s| - 1]] == s
  {
  }

  /** The masking loop of `_send_frame`, in place on the copied payload. */
  method MaskInPlace(a: array<byte>, mask: Mask)
    modifies a
    ensures a[..] == Masked(old(a[..]), mask)
  {
    for i := 0 to a.Length
      invariant forall j :: 0 <= j < i ==> a[j] == old(a[j]) ^ mask[j % 4]
      invariant forall j :: i <= j < a.Length ==> a[j] == old(a[j])
    {
      a[i] := a[i] ^ mask[i % 4];
    }
  }

  /** The header and masked payload `_send_frame` assembles. */
  method BuildFrame(opcode: int, payload: seq<byte>, mask: Mask) returns (r: Result<seq<byte>, Error>)
    ensures r == EncodeFrame(opcode, payload, mask)
  {
    var length := |payload|;
    var header := [FirstByte(opcode)];
    Pow256Values();
    if length <= 125 {
      header := header + [SecondByte(length)];
    } else if length <= 65535 {
      header := header + [SecondByte(126)] + ToBigEndian(length, 2);
    } else if length < LENGTH_LIMIT {
      header := header + [SecondByte(127)] + ToBigEndian(length, 8);
    } else {
      return Failure(LengthOverflow);
    }
    assert header == [FirstByte(opcode)] + LengthField(length);
    var masked := new byte[length](i requires 0 <= i < length => payload[i]);
    assert masked[..] == payload;
    MaskInPlace(masked, mask);
    r := Success(header + mask + masked[..]);
  }
}
