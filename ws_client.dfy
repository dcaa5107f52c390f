/** The WebSocket client of the plugin: frame sending and receiving over a socket, the
    read loop that answers pings, the non-blocking drain, and closing. Each method is proved
    against a frame-level specification on `Conn`. */
module WsClient {
  import opened Wrappers
  import opened Bytes
  import opened Errors
  import opened Utf8
  import opened FrameCodec
  import opened Sockets
  import opened Text
  import opened Handshake

  /** A connected socket seen frame by frame: the frames the peer has sent that the client
      has not read, the frames the client has sent, whether the i-th sendall call raises,
      and how many sendall calls have been made. */
  datatype Conn = Conn(pending: seq<Frame>, sent: seq<Frame>, fails: nat -> bool, sends: nat)

  /** The next sendall call raises. */
  predicate NextFails(c: Conn)
  {
    c.fails(c.sends)
  }

  /** `_send_frame` on a connected socket: the frame is sent, or struct.error for a payload
      too long for the 64-bit length field, raised before sendall is called, or the OSError
      of sendall. */
  function SendSpec(c: Conn, opcode: int, payload: seq<byte>): (Result<(), Error>, Conn)
  {
    if |payload| >= LENGTH_LIMIT then (Failure(LengthOverflow), c)
    else if NextFails(c) then (Failure(SocketError), c.(sends := c.sends + 1))
    else (Success(()), c.(sent := c.sent + [Frame(opcode % 16, payload)], sends := c.sends + 1))
  }

  /** `_read_frame` frame by frame: the first pending frame, or 'Socket closed' when the
      peer's stream holds no whole frame more. */
  function ReadFrameSpec(c: Conn): (Result<Frame, Error>, Conn)
  {
    if c.pending == [] then (Failure(SocketClosed), c)
    else (Success(c.pending[0]), c.(pending := c.pending[1..]))
  }

  /** One pass of the `read_text` loop: read a frame and say whether the call ends here
      (Some) or goes on (None). A Ping is answered with a Pong carrying its payload, a Pong
      or any other opcode but Close and Text is skipped, a Close frame ends the call with
      'Connection closed' and a Text frame with its payload decoded leniently. */
  function TextStep(c: Conn): (Option<Result<string, Error>>, Conn)
  {
    var (next, c1) := ReadFrameSpec(c);
    if next.Failure? then (Some(Failure(next.error)), c1)
    else if next.value.opcode == OP_CLOSE then (Some(Failure(ConnectionClosed)), c1)
    else if next.value.opcode == OP_PING then
      var (s, c2) := SendSpec(c1, OP_PONG, next.value.payload);
      (if s.Failure? then Some(Failure(s.error)) else None, c2)
    else if next.value.opcode == OP_TEXT then (Some(Success(DecodeIgnore(next.value.payload))), c1)
    else (None, c1)
  }

  /** `read_text`: passes of the loop until one ends the call. The budget is the number of
      deadline checks that still pass. */
  function ReadTextSpec(c: Conn, budget: nat): (Result<string, Error>, Conn)
    decreases budget
  {
    if budget == 0 then (Failure(TimedOut), c)
    else
      var (o, c1) := TextStep(c);
      if o.Some? then (o.value, c1) else ReadTextSpec(c1, budget - 1)
  }

  /** A pass that does not end the call leaves the rest of the budget to the next one. */
  lemma ReadTextGoesOn(c: Conn, d: Conn, budget: nat, rest: nat)
    requires budget == rest + 1 && TextStep(c) == (None, d)
    ensures ReadTextSpec(c, budget) == ReadTextSpec(d, rest)
  {
  }

  /** A frame on which `read_text` returns or raises, when the next sendall call raises
      exactly if fails: a Close, a Text, or a Ping whose Pong cannot be sent. */
  predicate EndsRead(f: Frame, fails: bool)
  {
    f.opcode == OP_CLOSE || f.opcode == OP_TEXT
    || (f.opcode == OP_PING && (fails || |f.payload| >= LENGTH_LIMIT))
  }

  /** The sendall calls a frame that ends `read_text` makes: one for a Ping whose Pong is
      short enough to be sent. */
  function Attempts(f: Frame): nat
  {
    if f.opcode == OP_PING && |f.payload| < LENGTH_LIMIT then 1 else 0
  }

  /** What `read_text` returns or raises on a frame that ends it. */
  function ReadOutcome(f: Frame): Result<string, Error>
  {
    if f.opcode == OP_CLOSE then Failure(ConnectionClosed)
    else if f.opcode == OP_TEXT then Success(DecodeIgnore(f.payload))
    else if |f.payload| >= LENGTH_LIMIT then Failure(LengthOverflow)
    else Failure(SocketError)
  }

  /** The Pongs answering the Pings among fs, in order. */
  function Pongs(fs: seq<Frame>): seq<Frame>
  {
    if fs == [] then []
    else (if fs[0].opcode == OP_PING then [Frame(OP_PONG, fs[0].payload)] else []) + Pongs(fs[1..])
  }

  /** The index of the first frame of fs that ends `read_text` when the next sendall call
      is the n-th, or |fs| when none does. Each Ping before it took one sendall call. */
  function FirstEnd(fs: seq<Frame>, fails: nat -> bool, n: nat): (k: nat)
    ensures k <= |fs|
  {
    if fs == [] then 0
    else if EndsRead(fs[0], fails(n)) then 0
    else 1 + FirstEnd(fs[1..], fails, n + |Pongs([fs[0]])|)
  }

  /** The frame at FirstEnd ends `read_text`, with one sendall call made for each Ping
      before it, and no frame before it does. */
  lemma FirstEndIsFirst(fs: seq<Frame>, fails: nat -> bool, n: nat)
    ensures var k := FirstEnd(fs, fails, n);
      && (k < |fs| ==> EndsRead(fs[k], fails(n + |Pongs(fs[..k])|)))
      && forall i :: 0 <= i < k ==> !EndsRead(fs[i], fails(n + |Pongs(fs[..i])|))
  {
    if FirstEnd(fs, fails, n) < |fs| {
      FirstEndAt(fs, fails, n);
    }
    forall i | 0 <= i < FirstEnd(fs, fails, n)
      ensures !EndsRead(fs[i], fails(n + |Pongs(fs[..i])|))
    {
      FirstEndBefore(fs, fails, n, i);
    }
  }

  lemma {:induction false} FirstEndAt(fs: seq<Frame>, fails: nat -> bool, n: nat)
    requires FirstEnd(fs, fails, n) < |fs|
    ensures var k := FirstEnd(fs, fails, n); EndsRead(fs[k], fails(n + |Pongs(fs[..k])|))
    decreases |fs|
  {
    var k := FirstEnd(fs, fails, n);
    if k == 0 {
      assert fs[..0] == [];
    } else {
      FirstEndAt(fs[1..], fails, n + |Pongs([fs[0]])|);
      PongsCons(fs, k);
    }
  }

  lemma {:induction false} FirstEndBefore(fs: seq<Frame>, fails: nat -> bool, n: nat, i: nat)
    requires i < FirstEnd(fs, fails, n)
    ensures !EndsRead(fs[i], fails(n + |Pongs(fs[..i])|))
    decreases i
  {
    if i == 0 {
      assert fs[..0] == [];
    } else {
      FirstEndBefore(fs[1..], fails, n + |Pongs([fs[0]])|, i - 1);
      PongsCons(fs, i);
    }
  }

  lemma PongsConsAll(fs: seq<Frame>)
    requires fs != []
    ensures Pongs(fs[..0]) == []
    ensures forall k :: 0 < k <= |fs| ==> Pongs(fs[..k]) == Pongs([fs[0]]) + Pongs(fs[1..][..k - 1])
  {
    assert fs[..0] == [];
    forall k | 0 < k <= |fs|
      ensures Pongs(fs[..k]) == Pongs([fs[0]]) + Pongs(fs[1..][..k - 1])
    {
      PongsCons(fs, k);
    }
  }

  /** The connection after the Pongs answering the Pings among fs were sent. */
  function Answered(c: Conn, fs: seq<Frame>): Conn
  {
    c.(sent := c.sent + Pongs(fs), sends := c.sends + |Pongs(fs)|)
  }

  /** The first pending frame decides one pass: it ends the call, or it is consumed (a Ping
      answered) and the call goes on. */
  lemma TextStepOutcome(c: Conn)
    requires c.pending != []
    ensures var f := c.pending[0];
      TextStep(c) == if EndsRead(f, NextFails(c))
        then (Some(ReadOutcome(f)), c.(pending := c.pending[1..], sends := c.sends + Attempts(f)))
        else (None, Answered(c.(pending := c.pending[1..]), [f]))
  {
    OpcodeBitsOfSmall(OP_PONG);
    PongsOne(c.pending[0]);
    assert c.sent + [] == c.sent;
  }

  lemma PongsOne(f: Frame)
    ensures Pongs([f]) == if f.opcode == OP_PING then [Frame(OP_PONG, f.payload)] else []
  {
    assert [f][1..] == [];
  }

  lemma PongsUnfold(fs: seq<Frame>)
    requires fs != []
    ensures Pongs(fs) == Pongs([fs[0]]) + Pongs(fs[1..])
  {
    PongsOne(fs[0]);
  }

  lemma PongsCons(fs: seq<Frame>, k: nat)
    requires 0 < k <= |fs|
    ensures Pongs(fs[..k]) == Pongs([fs[0]]) + Pongs(fs[1..][..k - 1])
  {
    assert fs[..k][1..] == fs[1..][..k - 1];
    PongsOne(fs[0]);
  }

  /** `read_text` in terms of the pending frames, with k the index of the first frame that
      ends the call: if that frame is read before the deadline, the call answers it, having
      answered every Ping before it with a Pong; if no frame ends the call and the stream
      runs out before the deadline, 'Socket closed'; otherwise 'Timed out', after reading
      as many frames as deadline checks passed. */
  function ReadTextByIndex(c: Conn, budget: nat): (Result<string, Error>, Conn)
  {
    var p, k := c.pending, FirstEnd(c.pending, c.fails, c.sends);
    if k < budget && k < |p| then
      var d := Answered(c.(pending := p[k + 1..]), p[..k]);
      (ReadOutcome(p[k]), d.(sends := d.sends + Attempts(p[k])))
    else if |p| < budget then
      (Failure(SocketClosed), Answered(c.(pending := []), p))
    else
      (Failure(TimedOut), Answered(c.(pending := p[budget..]), p[..budget]))
  }

  /** The connection after one pass that does not end the call: the first frame read, and
      answered when it is a Ping. */
  function Skipped(c: Conn): Conn
    requires c.pending != []
  {
    Answered(c.(pending := c.pending[1..]), [c.pending[0]])
  }

  lemma ByIndexEnds(c: Conn, budget: nat)
    requires FirstEnd(c.pending, c.fails, c.sends) < budget && FirstEnd(c.pending, c.fails, c.sends) < |c.pending|
    ensures var p, k := c.pending, FirstEnd(c.pending, c.fails, c.sends);
      var d := Answered(c.(pending := p[k + 1..]), p[..k]);
      ReadTextByIndex(c, budget) == (ReadOutcome(p[k]), d.(sends := d.sends + Attempts(p[k])))
  {
  }

  /** Answering the first frame, then the next k - 1, answers the first k. */
  lemma AnsweredCons(c: Conn, p: seq<Frame>, k: nat)
    requires 0 < k <= |p|
    ensures Answered(Answered(c, [p[0]]), p[1..][..k - 1]) == Answered(c, p[..k])
  {
    PongsCons(p, k);
    assert c.sent + Pongs([p[0]]) + Pongs(p[1..][..k - 1]) == c.sent + Pongs(p[..k]);
  }

  lemma SkipsToEnd(c: Conn, budget: nat)
    requires c.pending != [] && !EndsRead(c.pending[0], NextFails(c))
    requires FirstEnd(c.pending, c.fails, c.sends) < budget && FirstEnd(c.pending, c.fails, c.sends) < |c.pending|
    ensures ReadTextByIndex(Skipped(c), budget - 1) == ReadTextByIndex(c, budget)
  {
    var p, k, d := c.pending, FirstEnd(c.pending, c.fails, c.sends), Skipped(c);
    var e := c.(pending := p[k + 1..]);
    assert FirstEnd(d.pending, d.fails, d.sends) == k - 1;
    assert d.pending[k - 1] == p[k] && d.pending[k..] == p[k + 1..];
    assert d.(pending := p[k + 1..]) == Answered(e, [p[0]]);
    AnsweredCons(e, p, k);
    var a := Answered(d.(pending := d.pending[k..]), d.pending[..k - 1]);
    assert a == Answered(e, p[..k]);
    ByIndexEnds(c, budget);
    ByIndexEnds(d, budget - 1);
    assert ReadTextByIndex(d, budget - 1) == (ReadOutcome(p[k]), a.(sends := a.sends + Attempts(p[k])));
  }

  lemma ByIndexClosed(c: Conn, budget: nat)
    requires FirstEnd(c.pending, c.fails, c.sends) == |c.pending| < budget
    ensures ReadTextByIndex(c, budget) == (Failure(SocketClosed), Answered(c.(pending := []), c.pending))
  {
  }

  lemma SkipsToClosed(c: Conn, budget: nat)
    requires c.pending != [] && !EndsRead(c.pending[0], NextFails(c))
    requires FirstEnd(c.pending, c.fails, c.sends) == |c.pending| < budget
    ensures ReadTextByIndex(Skipped(c), budget - 1) == ReadTextByIndex(c, budget)
  {
    var p, d := c.pending, Skipped(c);
    var e := c.(pending := []);
    assert FirstEnd(d.pending, d.fails, d.sends) == |p| - 1;
    assert d.(pending := []) == Answered(e, [p[0]]);
    AnsweredCons(e, p, |p|);
    assert p[..|p|] == p && d.pending[..|p| - 1] == d.pending;
    ByIndexClosed(c, budget);
    ByIndexClosed(d, budget - 1);
  }

  lemma ByIndexTimeout(c: Conn, budget: nat)
    requires budget <= FirstEnd(c.pending, c.fails, c.sends) && budget <= |c.pending|
    ensures var p := c.pending;
      ReadTextByIndex(c, budget) == (Failure(TimedOut), Answered(c.(pending := p[budget..]), p[..budget]))
  {
  }

  lemma SkipsToTimeout(c: Conn, budget: nat)
    requires c.pending != [] && !EndsRead(c.pending[0], NextFails(c)) && budget > 0
    requires budget <= FirstEnd(c.pending, c.fails, c.sends) && budget <= |c.pending|
    ensures ReadTextByIndex(Skipped(c), budget - 1) == ReadTextByIndex(c, budget)
  {
    var p, d := c.pending, Skipped(c);
    var e := c.(pending := p[budget..]);
    assert FirstEnd(d.pending, d.fails, d.sends) == FirstEnd(p, c.fails, c.sends) - 1;
    assert d.pending[budget - 1..] == p[budget..];
    assert d.(pending := p[budget..]) == Answered(e, [p[0]]);
    AnsweredCons(e, p, budget);
    assert Answered(d.(pending := d.pending[budget - 1..]), d.pending[..budget - 1]) == Answered(e, p[..budget]);
    ByIndexTimeout(c, budget);
    ByIndexTimeout(d, budget - 1);
  }

  lemma {:induction false} ReadTextOutcome(c: Conn, budget: nat)
    ensures ReadTextSpec(c, budget) == ReadTextByIndex(c, budget)
    decreases budget
  {
    var p := c.pending;
    if budget == 0 {
      assert p[..0] == [] && p[0..] == p && c.sent + [] == c.sent;
      assert Answered(c.(pending := p[0..]), p[..0]) == c;
    } else if p == [] {
      assert Answered(c.(pending := []), p) == c;
    } else {
      TextStepOutcome(c);
      if !EndsRead(p[0], NextFails(c)) {
        var d := Skipped(c);
        ReadTextGoesOn(c, d, budget, budget - 1);
        ReadTextOutcome(d, budget - 1);
        var k := FirstEnd(p, c.fails, c.sends);
        if k < budget && k < |p| {
          SkipsToEnd(c, budget);
        } else if |p| < budget {
          SkipsToClosed(c, budget);
        } else {
          SkipsToTimeout(c, budget);
        }
      } else {
        assert p[..0] == [] && c.sent + [] == c.sent;
        assert Answered(c.(pending := p[1..]), p[..0]) == c.(pending := p[1..]);
      }
    }
  }

  /** One pass of the `drain_messages` loop: read a frame; a Text payload is collected, a
      Close frame raises, anything else (a Ping included) is dropped unanswered. */
  function DrainStep(c: Conn): (Result<seq<string>, Error>, Conn)
  {
    var (next, c1) := ReadFrameSpec(c);
    if next.Failure? then (Failure(next.error), c1)
    else if next.value.opcode == OP_CLOSE then (Failure(ConnectionClosed), c1)
    else if next.value.opcode == OP_TEXT then (Success([DecodeIgnore(next.value.payload)]), c1)
    else (Success([]), c1)
  }

  /** The messages m collected before the rest of a drain: kept when the rest succeeds,
      lost with the exception when it raises. */
  function Prefix(m: seq<string>, x: (Result<seq<string>, Error>, Conn)): (Result<seq<string>, Error>, Conn)
  {
    (if x.0.Success? then Success(m + x.0.value) else x.0, x.1)
  }

  /** `drain_messages`: while select reports the socket readable (polls times), a pass of
      the loop. */
  function DrainSpec(c: Conn, polls: nat): (Result<seq<string>, Error>, Conn)
    decreases polls
  {
    if polls == 0 then (Success([]), c)
    else
      var (o, c1) := DrainStep(c);
      if o.Failure? then (o, c1) else Prefix(o.value, DrainSpec(c1, polls - 1))
  }

  lemma PrefixNothing(x: (Result<seq<string>, Error>, Conn))
    ensures Prefix([], x) == x
  {
    if x.0.Success? {
      assert [] + x.0.value == x.0.value;
    }
  }

  /** A pass that does not raise adds its message, if any, to those collected. */
  lemma DrainGoesOn(c: Conn, d: Conn, polls: nat, rest: nat, got: seq<string>, m: seq<string>)
    requires polls == rest + 1 && DrainStep(c) == (Success(m), d)
    ensures Prefix(got, DrainSpec(c, polls)) == Prefix(got + m, DrainSpec(d, rest))
  {
    var x := DrainSpec(d, rest);
    assert DrainSpec(c, polls) == Prefix(m, x);
    if x.0.Success? {
      assert got + (m + x.0.value) == got + m + x.0.value;
    }
  }

  /** The payloads of the Text frames among fs, decoded leniently, in order. */
  function Texts(fs: seq<Frame>): seq<string>
  {
    if fs == [] then []
    else (if fs[0].opcode == OP_TEXT then [DecodeIgnore(fs[0].payload)] else []) + Texts(fs[1..])
  }

  /** The index of the first Close frame of fs, or |fs| when there is none. */
  function FirstClose(fs: seq<Frame>): (k: nat)
    ensures k <= |fs| && (k < |fs| ==> fs[k].opcode == OP_CLOSE)
    ensures forall i :: 0 <= i < k ==> fs[i].opcode != OP_CLOSE
  {
    if fs == [] then 0
    else if fs[0].opcode == OP_CLOSE then 0
    else 1 + FirstClose(fs[1..])
  }

  lemma TextsOne(f: Frame)
    ensures Texts([f]) == if f.opcode == OP_TEXT then [DecodeIgnore(f.payload)] else []
  {
    assert [f][1..] == [];
  }

  lemma TextsCons(fs: seq<Frame>, k: nat)
    requires 0 < k <= |fs|
    ensures Texts(fs[..k]) == Texts([fs[0]]) + Texts(fs[1..][..k - 1])
  {
    assert fs[..k][1..] == fs[1..][..k - 1];
    TextsOne(fs[0]);
  }

  lemma DrainStepOutcome(c: Conn)
    requires c.pending != [] && c.pending[0].opcode != OP_CLOSE
    ensures DrainStep(c) == (Success(Texts([c.pending[0]])), c.(pending := c.pending[1..]))
  {
    TextsOne(c.pending[0]);
  }

  /** `drain_messages` in terms of the pending frames; it never sends, since Pings go
      unanswered. With k the index of the first Close frame: if it is among the frames
      polled, the call raises 'Connection closed' and every text read before it is lost;
      if the stream runs out while select still reports data, 'Socket closed'; otherwise
      the texts of the frames polled, in order. */
  function DrainByIndex(c: Conn, polls: nat): (Result<seq<string>, Error>, Conn)
  {
    var p, k := c.pending, FirstClose(c.pending);
    if k < polls && k < |p| then (Failure(ConnectionClosed), c.(pending := p[k + 1..]))
    else if |p| < polls then (Failure(SocketClosed), c.(pending := []))
    else (Success(Texts(p[..polls])), c.(pending := p[polls..]))
  }

  /** Reading a frame other than Close adds its text, if any, and shifts the index. */
  lemma ByIndexCollects(c: Conn, polls: nat)
    requires polls > 0 && c.pending != [] && c.pending[0].opcode != OP_CLOSE
    ensures DrainByIndex(c, polls)
      == Prefix(Texts([c.pending[0]]), DrainByIndex(c.(pending := c.pending[1..]), polls - 1))
  {
    var p := c.pending;
    var k := FirstClose(p);
    assert FirstClose(p[1..]) == k - 1;
    if !(k < polls && k < |p|) && |p| >= polls {
      TextsCons(p, polls);
      assert p[1..][polls - 1..] == p[polls..];
    }
  }

  lemma {:induction false} DrainOutcome(c: Conn, polls: nat)
    ensures DrainSpec(c, polls) == DrainByIndex(c, polls)
    decreases polls
  {
    var p := c.pending;
    if polls == 0 {
      assert p[..0] == [] && p[0..] == p;
      assert c.(pending := p) == c;
    } else if p != [] && p[0].opcode != OP_CLOSE {
      var d := c.(pending := p[1..]);
      DrainStepOutcome(c);
      assert DrainSpec(c, polls) == Prefix(Texts([p[0]]), DrainSpec(d, polls - 1));
      DrainOutcome(d, polls - 1);
      ByIndexCollects(c, polls);
    }
  }

  /** What `read_text` returns is the lenient decoding of a pending Text frame, and the
      frames after it are still pending; so a call that returns a message consumes at
      least one frame. */
  lemma ReadTextReturnsText(c: Conn, budget: nat)
    ensures var (r, d) := ReadTextSpec(c, budget);
      r.Success? ==> exists k :: (0 <= k < |c.pending| && c.pending[k].opcode == OP_TEXT
        && r.value == DecodeIgnore(c.pending[k].payload) && d.pending == c.pending[k + 1..])
  {
    ReadTextOutcome(c, budget);
    var k := FirstEnd(c.pending, c.fails, c.sends);
    if k < budget && k < |c.pending| {
      assert c.pending[k].opcode == OP_TEXT || ReadOutcome(c.pending[k]).Failure?;
    }
  }

  /** `read_text` writes nothing but Pongs, and makes a sendall call for each one it
      writes and at most one more. */
  lemma ReadTextSendsPongs(c: Conn, budget: nat)
    ensures var d := ReadTextSpec(c, budget).1;
      && d.fails == c.fails
      && exists q :: (d.sent == c.sent + Pongs(q) && c.sends + |Pongs(q)| <= d.sends <= c.sends + |Pongs(q)| + 1)
  {
    ReadTextOutcome(c, budget);
    var p, k := c.pending, FirstEnd(c.pending, c.fails, c.sends);
    if k < budget && k < |p| {
      assert ReadTextByIndex(c, budget).1.sent == c.sent + Pongs(p[..k]);
    } else if |p| < budget {
      assert ReadTextByIndex(c, budget).1.sent == c.sent + Pongs(p);
    } else {
      assert ReadTextByIndex(c, budget).1.sent == c.sent + Pongs(p[..budget]);
    }
  }

  /** `drain_messages` sends nothing. */
  lemma DrainSendsNothing(c: Conn, polls: nat)
    ensures var d := DrainSpec(c, polls).1; d.sent == c.sent && d.sends == c.sends && d.fails == c.fails
  {
    DrainOutcome(c, polls);
  }

  lemma SliceAppend(a: seq<byte>, k: nat, w: seq<byte>)
    requires k <= |a|
    ensures (a + w)[k..] == a[k..] + w
  {
  }

  lemma SliceOfSuffix(a: seq<byte>, p: nat, i: nat, j: nat)
    requires p + j <= |a| && i <= j
    ensures a[p..][i..j] == a[p + i..p + j]
  {
  }

  /** The frames sent since the upgrade request, the masking key of each, and the bytes
      each became on the wire. */
  datatype SendLog = SendLog(frames: seq<Frame>, masks: seq<Mask>, wire: seq<seq<byte>>)

  /** The outbound bytes from `start` on are exactly the frames of the log, encoded. */
  predicate Logged(sent: seq<byte>, start: nat, log: SendLog)
  {
    && start <= |sent| && Encodes(log.wire, log.frames, log.masks)
    && sent[start..] == Concat(log.wire)
  }

  /** The log with one more frame, sent under masking key m. */
  function LogFrame(log: SendLog, f: Frame, m: Mask): SendLog
    requires f.opcode < 16 && |f.payload| < LENGTH_LIMIT
  {
    SendLog(log.frames + [f], log.masks + [m], log.wire + [EncodeFrame(f.opcode, f.payload, m).value])
  }

  /** Appending one more frame's bytes to the socket keeps the log. */
  lemma LogAppend(sent: seq<byte>, start: nat, log: SendLog, f: Frame, m: Mask)
    requires Logged(sent, start, log) && f.opcode < 16 && |f.payload| < LENGTH_LIMIT
    ensures Logged(sent + EncodeFrame(f.opcode, f.payload, m).value, start, LogFrame(log, f, m))
  {
    var w := EncodeFrame(f.opcode, f.payload, m).value;
    EncodesAppend(log.wire, log.frames, log.masks, f, m);
    ConcatAppend(log.wire, w);
    SliceAppend(sent, start, w);
  }

  /** What a logged stream of bytes decodes to. */
  lemma LoggedDecodes(sent: seq<byte>, start: nat, log: SendLog)
    requires Logged(sent, start, log)
    ensures DecodeAll(sent[start..]) == log.frames && Leftover(sent[start..]) == []
  {
    DecodeSent(log.wire, log.frames, log.masks);
  }

  class WebSocketClient {
    const host: string
    const port: int
    /** The masking keys os.urandom(4) returns, in the order they are drawn. */
    const masks: nat -> Mask
    /** How many masking keys have been drawn. */
    var drawn: nat
    var sock: Socket?
    /** Where frames begin in the socket's outbound bytes, after the upgrade request. */
    ghost var frameStart: nat
    ghost var log: SendLog

    /** The bytes s took since the upgrade request are the frames recorded as sent. */
    ghost predicate Recorded(s: Socket)
      reads this`frameStart, this`log, s
    {
      s.Valid() && Logged(s.sent, frameStart, log)
    }

    ghost predicate Valid()
      reads this`sock, this`frameStart, this`log, sock
    {
      sock != null ==> Recorded(sock)
    }

    /** What the client wrote to s after the upgrade request decodes to the frames it
        sent, each in full; Close leaves this true of the socket it drops. */
    lemma SentOnWire(s: Socket)
      requires Recorded(s)
      ensures DecodeAll(s.sent[frameStart..]) == log.frames
      ensures Leftover(s.sent[frameStart..]) == []
    {
      LoggedDecodes(s.sent, frameStart, log);
    }

    /** The connection frame by frame. Valid() ties the log's frames to the bytes on the
        wire, which LoggedDecodes shows decode to exactly those frames. */
    ghost function Wire(): Conn
      reads this`sock, this`frameStart, this`log, sock
      requires Valid() && sock != null
    {
      Conn(DecodeAll(sock.inbound[sock.pos..]), log.frames, sock.fails, sock.sends)
    }

    constructor (host: string, port: int, masks: nat -> Mask)
      ensures Valid() && sock == null && drawn == 0
      ensures this.host == host && this.port == port && this.masks == masks
    {
      this.host := host;
      this.port := port;
      this.masks := masks;
      drawn := 0;
      sock := null;
      frameStart := 0;
      log := SendLog([], [], []);
    }

    /** `_read_http_response`: recv(1024) until the reply holds the blank line or the
        stream ends. */
    method ReadHttpResponse() returns (data: seq<byte>)
      requires sock != null && sock.Valid()
      modifies sock
      ensures sock.Valid() && OnlyReceived(sock)
      ensures data == HttpRead(old(sock.Unread()), Min(RESPONSE_CHUNK, sock.maxRecv), [])
      ensures sock.pos == old(sock.pos) + |data|
    {
      data := [];
      ghost var k := Min(RESPONSE_CHUNK, sock.maxRecv);
      ghost var p0 := sock.pos;
      while !Occurs(HEADER_END, data)
        invariant sock.Valid() && OnlyReceived(sock) && sock.pos == p0 + |data|
        invariant HttpRead(sock.Unread(), k, data) == HttpRead(old(sock.Unread()), k, [])
        decreases |sock.inbound| - sock.pos
      {
        ghost var u := sock.Unread();
        var chunk := sock.Recv(RESPONSE_CHUNK);
        if chunk == [] {
          break;
        }
        assert chunk == u[..Min(k, |u|)] && sock.Unread() == u[Min(k, |u|)..];
        data := data + chunk;
      }
    }

    /** `connect`. peer is the socket create_connection returns, null when it raises;
        key is the Sec-WebSocket-Key, the base64 text of 16 random bytes. The socket is
        kept from the moment it exists, so a request or handshake that fails leaves the
        client holding it. */
    method Connect(peer: Socket?, key: string) returns (r: Result<(), Error>)
      requires Valid() && (peer != null ==> peer.Valid())
      modifies this, peer
      ensures Valid() && drawn == old(drawn)
      ensures peer == null ==> r == Failure(SocketError) && sock == old(sock)
      ensures peer != null ==>
        && sock == peer && log.frames == []
        && peer.inbound == old(peer.inbound) && peer.maxRecv == old(peer.maxRecv)
        && peer.fails == old(peer.fails)
        && var req := AsciiEncode(Request(host, port, key));
          if req.None? then
            && r == Failure(EncodingError) && peer.sends == old(peer.sends)
            && peer.sent == old(peer.sent) && peer.pos == old(peer.pos)
          else if old(peer.fails(peer.sends)) then
            && r == Failure(SocketError) && peer.sends == old(peer.sends) + 1
            && peer.sent == old(peer.sent) && peer.pos == old(peer.pos)
          else
            var data := HttpRead(old(peer.Unread()), Min(RESPONSE_CHUNK, peer.maxRecv), []);
            && peer.sends == old(peer.sends) + 1
            && peer.sent == old(peer.sent) + req.value
            && peer.pos == old(peer.pos) + |data|
            && r == HandshakeResult(data)
    {
      if peer == null {
        return Failure(SocketError);
      }
      sock := peer;
      frameStart := |peer.sent|;
      log := SendLog([], [], []);
      var req := AsciiEncode(Request(host, port, key));
      if req.None? {
        return Failure(EncodingError);
      }
      var ok := peer.SendAll(req.value);
      frameStart := |peer.sent|;
      if !ok {
        return Failure(SocketError);
      }
      var data := ReadHttpResponse();
      r := HandshakeResult(data);
    }

    /** `_recv_exact(n)`: exactly the next n bytes, or 'Socket closed' once the peer's
        stream ends first, by which time every remaining byte has been read. */
    method RecvExact(n: nat) returns (r: Result<seq<byte>, Error>)
      requires sock != null && sock.Valid()
      modifies sock
      ensures sock.Valid() && OnlyReceived(sock)
      ensures n <= |old(sock.Unread())| ==>
        r == Success(old(sock.Unread())[..n]) && sock.pos == old(sock.pos) + n
      ensures n > |old(sock.Unread())| ==>
        r == Failure(SocketClosed) && sock.pos == |sock.inbound|
    {
      var data: seq<byte> := [];
      ghost var p0 := sock.pos;
      SliceOfSuffix(sock.inbound, p0, 0, Min(n, |sock.inbound| - p0));
      while |data| < n
        invariant sock.Valid() && OnlyReceived(sock)
        invariant sock.pos == p0 + |data| && |data| <= n
        invariant data == sock.inbound[p0..sock.pos]
        decreases n - |data|
      {
        var chunk := sock.Recv(n - |data|);
        if chunk == [] {
          return Failure(SocketClosed);
        }
        data := data + chunk;
      }
      return Success(data);
    }

    /** The payload length of `_read_frame`: the 7-bit marker itself, or the 16- or
        64-bit big-endian field that follows the two fixed header bytes. */
    method ReadLength(marker: nat) returns (r: Result<nat, Error>)
      requires sock != null && sock.Valid() && marker < 128
      modifies sock
      ensures sock.Valid() && OnlyReceived(sock)
      ensures var ext := MarkerExtension(marker);
        if ext <= |old(sock.Unread())| then
          && r == Success(if ext == 0 then marker else FromBigEndian(old(sock.Unread())[..ext]))
          && sock.pos == old(sock.pos) + ext
        else r == Failure(SocketClosed) && sock.pos == |sock.inbound|
    {
      var ext := MarkerExtension(marker);
      if ext == 0 {
        return Success(marker);
      }
      var e := RecvExact(ext);
      if e.Failure? {
        return Failure(e.error);
      }
      return Success(FromBigEndian(e.value));
    }

    /** The masking key of `_read_frame`: four bytes when the mask bit is set, none
        otherwise. */
    method ReadMask(masked: bool) returns (r: Result<seq<byte>, Error>)
      requires sock != null && sock.Valid()
      modifies sock
      ensures sock.Valid() && OnlyReceived(sock)
      ensures !masked ==> r == Success([]) && sock.pos == old(sock.pos)
      ensures masked && 4 <= |old(sock.Unread())| ==>
        r == Success(old(sock.Unread())[..4]) && sock.pos == old(sock.pos) + 4
      ensures masked && 4 > |old(sock.Unread())| ==>
        r == Failure(SocketClosed) && sock.pos == |sock.inbound|
    {
      if !masked {
        return Success([]);
      }
      r := RecvExact(4);
    }

    /** What follows the two fixed header bytes b1 b2: the extended length and the key. */
    method ReadHeaderTail(b1: byte, b2: byte) returns (r: Result<(Header, seq<byte>), Error>)
      requires sock != null && sock.Valid()
      modifies sock
      ensures sock.Valid() && OnlyReceived(sock)
      ensures var u := old(sock.Unread());
        match DecodeHeader([b1, b2] + u)
        case None => r == Failure(SocketClosed) && sock.pos == |sock.inbound|
        case Some(h) =>
          && r == Success((h, if h.masked then u[h.size - 6..h.size - 2] else []))
          && sock.pos == old(sock.pos) + h.size - 2
    {
      ghost var u := sock.Unread();
      DecodeHeaderAfter(b1, b2, u);
      var length := ReadLength(LengthMarker(b2));
      if length.Failure? {
        return Failure(length.error);
      }
      ghost var ext := MarkerExtension(LengthMarker(b2));
      var mask := ReadMask(HasMask(b2));
      if mask.Failure? {
        return Failure(mask.error);
      }
      if HasMask(b2) {
        assert u[ext..][..4] == u[ext..ext + 4];
      }
      return Success((Header(OpcodeBits(b1), HasMask(b2), length.value, HeaderSize(b2)), mask.value));
    }

    /** The header part of `_read_frame`: the two fixed bytes, the extended length and
        the masking key when the mask bit is set. */
    method ReadHeader() returns (r: Result<(Header, seq<byte>), Error>)
      requires sock != null && sock.Valid()
      modifies sock
      ensures sock.Valid() && OnlyReceived(sock)
      ensures var s := old(sock.Unread());
        match DecodeHeader(s)
        case None => r == Failure(SocketClosed) && sock.pos == |sock.inbound|
        case Some(h) =>
          && r == Success((h, if h.masked then s[h.size - 4..h.size] else []))
          && sock.pos == old(sock.pos) + h.size
    {
      ghost var s := sock.Unread();
      var hdr := RecvExact(2);
      if hdr.Failure? {
        return Failure(hdr.error);
      }
      HeaderAfterTwo(s);
      assert sock.Unread() == s[2..];
      var b1, b2 := hdr.value[0], hdr.value[1];
      assert b1 == s[0] && b2 == s[1];
      r := ReadHeaderTail(b1, b2);
    }

    /** The payload read of `_read_frame`: n bytes, and no read at all for an empty one. */
    method ReadPayload(n: nat) returns (r: Result<seq<byte>, Error>)
      requires sock != null && sock.Valid()
      modifies sock
      ensures sock.Valid() && OnlyReceived(sock)
      ensures n <= |old(sock.Unread())| ==>
        r == Success(old(sock.Unread())[..n]) && sock.pos == old(sock.pos) + n
      ensures n > |old(sock.Unread())| ==>
        r == Failure(SocketClosed) && sock.pos == |sock.inbound|
    {
      if n == 0 {
        return Success([]);
      }
      r := RecvExact(n);
    }

    /** `_read_frame`: the next frame of the stream, as DecodeFrame reads it. */
    method ReadFrame() returns (r: Result<Frame, Error>)
      requires sock != null ==> sock.Valid()
      modifies sock
      ensures old(sock) == null ==> r == Failure(NotConnected)
      ensures sock != null ==> sock.Valid() && OnlyReceived(sock)
      ensures sock != null ==>
        match DecodeFrame(old(sock.Unread()))
        case Success((f, n)) => r == Success(f) && sock.pos == old(sock.pos) + n
        case Failure(e) => r == Failure(e) && sock.pos == |sock.inbound|
    {
      if sock == null {
        return Failure(NotConnected);
      }
      ghost var s := sock.Unread();
      var hm := ReadHeader();
      if hm.Failure? {
        return Failure(hm.error);
      }
      var (h, mask) := hm.value;
      r := ReadBody(h, mask, s);
    }

    /** The second half of `_read_frame`: after header h (and its key) were read from the
        front of s, the payload, unmasked when h is masked. */
    method ReadBody(h: Header, mask: seq<byte>, ghost s: seq<byte>) returns (r: Result<Frame, Error>)
      requires sock != null && sock.Valid()
      requires DecodeHeader(s) == Some(h) && sock.Unread() == s[h.size..]
      requires mask == if h.masked then s[h.size - 4..h.size] else []
      modifies sock
      ensures sock.Valid() && OnlyReceived(sock)
      ensures h.size + h.length <= |s| ==>
        r == Success(Frame(h.opcode, Payload(s, h))) && sock.pos == old(sock.pos) + h.length
      ensures h.size + h.length > |s| ==> r == Failure(SocketClosed) && sock.pos == |sock.inbound|
    {
      ghost var u := sock.Unread();
      var p := ReadPayload(h.length);
      if p.Failure? {
        return Failure(p.error);
      }
      PayloadSlice(s, h, u);
      var payload := if h.masked then Masked(p.value, mask) else p.value;
      r := Success(Frame(h.opcode, payload));
    }

    /** `_read_frame` on a connected client, frame by frame: the first pending frame, or
        'Socket closed' when no whole frame is left. */
    method NextFrame() returns (r: Result<Frame, Error>)
      requires Valid() && sock != null
      modifies sock
      ensures Valid() && (r, Wire()) == ReadFrameSpec(old(Wire()))
    {
      ghost var s := sock.Unread();
      DecodeAllNext(s);
      r := ReadFrame();
      if r.Success? {
        assert sock.Unread() == s[DecodeFrame(s).value.1..];
      } else {
        DecodeAllEmpty();
      }
    }

    /** `_send_frame(opcode, payload)`: one masked frame under the next masking key, or
        'Socket not connected' when there is no socket. */
    method SendFrame(opcode: int, payload: seq<byte>) returns (r: Result<(), Error>)
      requires Valid()
      modifies this`drawn, this`log, sock
      ensures Valid() && sock == old(sock)
      ensures old(sock) == null ==> r == Failure(NotConnected) && drawn == old(drawn) && log == old(log)
      ensures old(sock) != null ==>
        && (r, Wire()) == SendSpec(old(Wire()), opcode, payload)
        && sock.pos == old(sock.pos) && sock.inbound == old(sock.inbound)
        && sock.sent == old(sock.sent) + (if r.Success? then EncodeFrame(opcode, payload, masks(old(drawn))).value else [])
        && drawn == old(drawn) + (if |payload| < LENGTH_LIMIT then 1 else 0)
    {
      if sock == null {
        return Failure(NotConnected);
      }
      r := SendOnSocket(opcode, payload);
    }

    /** `_send_frame` once the socket is known to exist. The key is drawn once the header
        is built, so a payload too long for the length field draws none and makes no
        sendall call. */
    method SendOnSocket(opcode: int, payload: seq<byte>) returns (r: Result<(), Error>)
      requires Valid() && sock != null
      modifies this`drawn, this`log, sock
      ensures Valid()
      ensures (r, Wire()) == SendSpec(old(Wire()), opcode, payload)
      ensures sock.pos == old(sock.pos) && sock.inbound == old(sock.inbound)
      ensures sock.sent == old(sock.sent) + (if r.Success? then EncodeFrame(opcode, payload, masks(old(drawn))).value else [])
      ensures drawn == old(drawn) + (if |payload| < LENGTH_LIMIT then 1 else 0)
    {
      ghost var c := Wire();
      var mask := masks(drawn);
      var w := BuildFrame(opcode, payload, mask);
      if w.Failure? {
        return Failure(w.error);
      }
      drawn := drawn + 1;
      EncodeLowBits(opcode, payload, mask);
      r := Transmit(Frame(opcode % 16, payload), mask, w.value);
      assert (r, Wire()) == SendSpec(c, opcode, payload);
    }

    /** The sendall of `_send_frame`: the bytes w of frame f reach the wire, or the socket
        raises and nothing is written. */
    method Transmit(f: Frame, mask: Mask, w: seq<byte>) returns (r: Result<(), Error>)
      requires Valid() && sock != null && f.opcode < 16 && |f.payload| < LENGTH_LIMIT
      requires w == EncodeFrame(f.opcode, f.payload, mask).value
      modifies this`log, sock
      ensures Valid()
      ensures r == if old(sock.fails(sock.sends)) then Failure(SocketError) else Success(())
      ensures r.Failure? ==> Wire() == old(Wire()).(sends := old(Wire()).sends + 1)
      ensures r.Success? ==> Wire() == old(Wire()).(sent := old(Wire()).sent + [f], sends := old(Wire()).sends + 1)
      ensures log.frames == old(log.frames) + (if r.Success? then [f] else [])
      ensures sock.pos == old(sock.pos) && sock.inbound == old(sock.inbound)
      ensures sock.sent == old(sock.sent) + (if r.Success? then w else [])
    {
      ghost var before := sock.sent;
      ghost var c := Wire();
      var ok := sock.SendAll(w);
      if !ok {
        assert Recorded(sock);
        assert Wire() == c.(sends := c.sends + 1);
        return Failure(SocketError);
      }
      LogAppend(before, frameStart, log, f, mask);
      log := LogFrame(log, f, mask);
      assert Recorded(sock);
      assert Wire() == c.(sent := c.sent + [f], sends := c.sends + 1);
      r := Success(());
    }

    /** `send_text`: a Text frame with the UTF-8 encoding of text. */
    method SendText(text: string) returns (r: Result<(), Error>)
      requires Valid()
      modifies this`drawn, this`log, sock
      ensures Valid() && sock == old(sock)
      ensures old(sock) == null ==> r == Failure(NotConnected) && drawn == old(drawn) && log == old(log)
      ensures old(sock) != null ==> (r, Wire()) == SendSpec(old(Wire()), OP_TEXT, Encode(text))
    {
      r := SendFrame(OP_TEXT, Encode(text));
    }

    /** `send_binary`: a Binary frame carrying payload. */
    method SendBinary(payload: seq<byte>) returns (r: Result<(), Error>)
      requires Valid()
      modifies this`drawn, this`log, sock
      ensures Valid() && sock == old(sock)
      ensures old(sock) == null ==> r == Failure(NotConnected) && drawn == old(drawn) && log == old(log)
      ensures old(sock) != null ==> (r, Wire()) == SendSpec(old(Wire()), OP_BINARY, payload)
    {
      r := SendFrame(OP_BINARY, payload);
    }

    /** `close`: a best-effort Close frame, whose failure is ignored, then the socket is
        closed and dropped. The record of what was written to it is kept, so by SentOnWire
        it still decodes to the frames sent, now ending with the Close frame when it could
        be written. */
    method Close()
      requires Valid()
      modifies this`drawn, this`log, this`sock, sock
      ensures Valid() && sock == null
      ensures old(sock) == null ==> drawn == old(drawn) && log == old(log)
      ensures old(sock) != null ==>
        && old(sock).closed && Recorded(old(sock)) && drawn == old(drawn) + 1
        && old(sock).sends == old(sock.sends) + 1
        && log.frames == old(log.frames) + (if old(sock.fails(sock.sends)) then [] else [Frame(OP_CLOSE, [])])
    {
      if sock == null {
        return;
      }
      var s := sock;
      OpcodeBitsOfSmall(OP_CLOSE);
      var sent := SendFrame(OP_CLOSE, []);
      s.Close();
      sock := null;
    }

    /** One pass of the `read_text` loop, as TextStep says. */
    method ReadTextPass() returns (r: Option<Result<string, Error>>)
      requires Valid() && sock != null
      modifies this`drawn, this`log, sock
      ensures Valid() && sock == old(sock)
      ensures (r, Wire()) == TextStep(old(Wire()))
    {
      var f := NextFrame();
      if f.Failure? {
        return Some(Failure(f.error));
      }
      var frame := f.value;
      if frame.opcode == OP_CLOSE {
        return Some(Failure(ConnectionClosed));
      }
      if frame.opcode == OP_PING {
        var sent := SendFrame(OP_PONG, frame.payload);
        return if sent.Failure? then Some(Failure(sent.error)) else None;
      }
      if frame.opcode == OP_TEXT {
        return Some(Success(DecodeIgnore(frame.payload)));
      }
      return None;
    }

    /** `read_text`: the deadline check is the budget, then each frame read is handled as
        ReadTextSpec says. Without a socket, the first deadline check passes and
        `_read_frame` raises. */
    method ReadText(budget: nat) returns (r: Result<string, Error>)
      requires Valid()
      modifies this`drawn, this`log, sock
      ensures Valid() && sock == old(sock)
      ensures old(sock) == null ==> r == Failure(if budget == 0 then TimedOut else NotConnected)
      ensures old(sock) == null ==> drawn == old(drawn) && log == old(log)
      ensures old(sock) != null ==> (r, Wire()) == ReadTextSpec(old(Wire()), budget)
    {
      if sock == null {
        return Failure(if budget == 0 then TimedOut else NotConnected);
      }
      var left: nat := budget;
      while true
        invariant Valid() && sock == old(sock) && sock != null && left <= budget
        invariant ReadTextSpec(Wire(), left) == ReadTextSpec(old(Wire()), budget)
        decreases left
      {
        if left == 0 {
          return Failure(TimedOut);
        }
        ghost var before := Wire();
        var o := ReadTextPass();
        if o.Some? {
          return o.value;
        }
        var next: nat := left - 1;
        ReadTextGoesOn(before, Wire(), left, next);
        left := next;
      }
    }

    /** One pass of the `drain_messages` loop, as DrainStep says. */
    method DrainPass() returns (r: Result<seq<string>, Error>)
      requires Valid() && sock != null
      modifies sock
      ensures Valid()
      ensures (r, Wire()) == DrainStep(old(Wire()))
    {
      var f := NextFrame();
      if f.Failure? {
        return Failure(f.error);
      }
      if f.value.opcode == OP_CLOSE {
        return Failure(ConnectionClosed);
      }
      if f.value.opcode == OP_TEXT {
        return Success([DecodeIgnore(f.value.payload)]);
      }
      return Success([]);
    }

    /** `drain_messages`: polls is the number of select calls that report the socket
        readable before one does not. Without a socket nothing is read. */
    method DrainMessages(polls: nat) returns (r: Result<seq<string>, Error>)
      requires Valid()
      modifies sock
      ensures Valid()
      ensures old(sock) == null ==> r == Success([])
      ensures old(sock) != null ==> (r, Wire()) == DrainSpec(old(Wire()), polls)
    {
      if sock == null {
        return Success([]);
      }
      var messages: seq<string> := [];
      var left: nat := polls;
      PrefixNothing(DrainSpec(Wire(), polls));
      while left > 0
        invariant Valid() && sock == old(sock) && sock != null
        invariant Prefix(messages, DrainSpec(Wire(), left)) == DrainSpec(old(Wire()), polls)
        decreases left
      {
        ghost var before := Wire();
        var m := DrainPass();
        if m.Failure? {
          return Failure(m.error);
        }
        var next: nat := left - 1;
        DrainGoesOn(before, Wire(), left, next, messages, m.value);
        messages := messages + m.value;
        left := next;
      }
      assert messages + [] == messages;
      return Success(messages);
    }
  }
}
