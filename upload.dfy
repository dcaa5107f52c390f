/** `upload_file`: one upload session over a fresh client. The START message, the gate on
    the device's first reply, the file in chunks with a drain after each, the wait for DONE,
    and the close in the `finally`. Specified frame by frame on `Conn` and proved of the
    client methods. */
module Upload {
  import opened Wrappers
  import opened Bytes
  import opened Errors
  import opened Text
  import opened Utf8
  import opened FrameCodec
  import opened Sockets
  import opened Handshake
  import opened WsClient

  /** The announcement that opens a session: file name, size in bytes and target folder. */
  function StartMessage(filename: string, size: nat, uploadPath: string): string
  {
    "START:" + filename + ":" + NatToString(size) + ":" + uploadPath
  }

  /** The device reads START as four ':'-separated fields: the tag, the file name, the
      decimal size and the folder, as long as neither name holds a ':'. */
  lemma StartFields(filename: string, size: nat, uploadPath: string)
    requires ':' !in filename && ':' !in uploadPath
    ensures Split(StartMessage(filename, size, uploadPath), ':') == ["START", filename, NatToString(size), uploadPath]
  {
    var parts := ["START", filename, NatToString(size), uploadPath];
    var digits := NatToString(size);
    assert ':' !in digits;
    assert Join(parts[3..], ':') == uploadPath;
    assert Join(parts[2..], ':') == digits + ":" + uploadPath;
    assert Join(parts[1..], ':') == filename + ":" + digits + ":" + uploadPath;
    assert Join(parts, ':') == StartMessage(filename, size, uploadPath);
    SplitJoin(parts, ':');
  }

  /** The test on the device's answer to START: an empty reply, an `ERROR...` reply (raised
      verbatim) and anything but READY end the session. */
  function Gate(reply: string): Result<(), Error>
  {
    if reply == "" then Failure(UnexpectedResponse("<empty>"))
    else if StartsWith(reply, "ERROR") then Failure(DeviceError(reply))
    else if reply != "READY" then Failure(UnexpectedResponse(reply))
    else Success(())
  }

  /** Only READY lets the upload go on. */
  lemma GateOnlyReady(reply: string)
    ensures Gate(reply).Success? <==> reply == "READY"
    ensures StartsWith(reply, "ERROR") ==> Gate(reply) == Failure(DeviceError(reply))
  {
    if reply == "READY" {
      assert reply[..5] != "ERROR" by {
        assert reply[0] == 'R';
      }
    }
  }

  /** How much `f.read(size)` returns of the rest of the file, for a size `read` accepts:
      all of it for -1, otherwise at most size bytes, and something unless the size is 0
      or the file is at its end. */
  function ChunkLength(size: int, rest: nat): (n: nat)
    requires size >= -1
    ensures n <= rest && (size >= 0 ==> n <= size)
    ensures size != 0 && rest > 0 ==> n > 0
  {
    if size == -1 then rest else Min(size, rest)
  }

  /** The chunks the upload loop reads, until a read returns nothing. */
  function Chunks(file: seq<byte>, size: int): seq<seq<byte>>
    requires size >= -1
    decreases |file|
  {
    var n := ChunkLength(size, |file|);
    if n == 0 then [] else [file[..n]] + Chunks(file[n..], size)
  }

  /** What the reads of the upload loop give: for a size below -1 the first `f.read`
      raises ValueError, and otherwise they give the chunks. */
  function ReadChunks(file: seq<byte>, size: int): Result<seq<seq<byte>>, Error>
  {
    if size < -1 then Failure(ReadLengthInvalid) else Success(Chunks(file, size))
  }

  lemma ConcatCons(w: seq<byte>, ws: seq<seq<byte>>)
    ensures Concat([w] + ws) == w + Concat(ws)
    decreases |ws|
  {
    if ws != [] {
      var init, last := ws[..|ws| - 1], ws[|ws| - 1];
      assert [w] + ws == ([w] + init) + [last];
      assert ws == init + [last];
      ConcatAppend([w] + init, last);
      ConcatAppend(init, last);
      ConcatCons(w, init);
    } else {
      assert [w] + ws == [] + [w];
      ConcatAppend([], w);
    }
  }

  /** For a positive chunk size, or -1, the chunks put together are the file. */
  lemma {:induction false} ChunksJoin(file: seq<byte>, size: int)
    requires size > 0 || size == -1
    ensures Concat(Chunks(file, size)) == file
    decreases |file|
  {
    var n := ChunkLength(size, |file|);
    if n > 0 {
      ChunksJoin(file[n..], size);
      ConcatCons(file[..n], Chunks(file[n..], size));
      assert file[..n] + file[n..] == file;
    }
  }

  /** Every chunk holds something, and with a positive size no more than size bytes; every
      chunk but the last holds exactly size bytes. */
  lemma {:induction false} ChunksBounded(file: seq<byte>, size: int)
    requires size >= -1
    ensures var cs := Chunks(file, size);
      && (forall i :: 0 <= i < |cs| ==> 0 < |cs[i]| && (size > 0 ==> |cs[i]| <= size))
      && (forall i :: 0 <= i < |cs| - 1 ==> |cs[i]| == size)
    decreases |file|
  {
    var n := ChunkLength(size, |file|);
    if n > 0 {
      ChunksBounded(file[n..], size);
      var cs := Chunks(file, size);
      assert forall i :: 1 <= i < |cs| ==> cs[i] == Chunks(file[n..], size)[i - 1];
    }
  }

  /** A chunk size of 0 reads nothing, -1 reads the whole file in one piece, and any size
      below -1 makes the first read raise. */
  lemma ChunksOfOddSizes(file: seq<byte>)
    ensures ReadChunks(file, 0) == Success([])
    ensures file != [] ==> ReadChunks(file, -1) == Success([file])
    ensures forall size :: size < -1 ==> ReadChunks(file, size) == Failure(ReadLengthInvalid)
  {
    if file != [] {
      assert file[|file|..] == [] && Chunks([], -1) == [];
      assert file[..|file|] == file;
      assert Chunks(file, -1) == [file[..|file|]] + Chunks(file[|file|..], -1);
      assert [file[..|file|]] + [] == [file];
    }
  }

  /** The progress reports: the running total of bytes sent after each chunk. */
  function Totals(chunks: seq<seq<byte>>, sent: nat): seq<nat>
  {
    if chunks == [] then [] else [sent + |chunks[0]|] + Totals(chunks[1..], sent + |chunks[0]|)
  }

  /** The reports of a whole file rise strictly and end at its size. */
  lemma {:induction false} TotalsOfFile(file: seq<byte>, size: int, sent: nat)
    requires (size > 0 || size == -1) && file != []
    ensures var t := Totals(Chunks(file, size), sent);
      t != [] && t[|t| - 1] == sent + |file|
      && (forall i, j :: 0 <= i < j < |t| ==> t[i] < t[j])
      && (forall i :: 0 <= i < |t| ==> sent < t[i] <= sent + |file|)
    decreases |file|
  {
    var n := ChunkLength(size, |file|);
    var t := Totals(Chunks(file, size), sent);
    if n < |file| {
      TotalsOfFile(file[n..], size, sent + n);
      var u := Totals(Chunks(file[n..], size), sent + n);
      assert t == [sent + n] + u;
      assert forall i :: 1 <= i < |t| ==> t[i] == u[i - 1];
    } else {
      assert file[n..] == [];
      assert t == [sent + n];
    }
  }

  /** The Binary frames carrying the chunks. */
  function Binaries(chunks: seq<seq<byte>>): seq<Frame>
  {
    if chunks == [] then [] else [Frame(OP_BINARY, chunks[0])] + Binaries(chunks[1..])
  }

  /** The chunk loop from a given chunk on: i counts the chunks sent before, so polls(i)
      is the number of select calls that report data in the drain after chunk i. A send
      or drain that raises ends the session; the report follows every chunk sent. */
  function ChunksSpec(c: Conn, chunks: seq<seq<byte>>, sent: nat, polls: nat -> nat, i: nat)
    : (Result<(), Error>, seq<nat>, Conn)
    decreases |chunks|
  {
    if chunks == [] then (Success(()), [], c)
    else
      var (s, c1) := SendSpec(c, OP_BINARY, chunks[0]);
      if s.Failure? then (s, [], c1)
      else
        var total := sent + |chunks[0]|;
        var (d, c2) := DrainSpec(c1, polls(i));
        if d.Failure? then (Failure(d.error), [total], c2)
        else
          var (r, p, c3) := ChunksSpec(c2, chunks[1..], total, polls, i + 1);
          (r, [total] + p, c3)
  }

  /** The chunk loop over what the reads give: a read that raises ends it before any
      chunk is sent. */
  function LoopSpec(c: Conn, read: Result<seq<seq<byte>>, Error>, polls: nat -> nat)
    : (Result<(), Error>, seq<nat>, Conn)
  {
    if read.Failure? then (Failure(read.error), [], c) else ChunksSpec(c, read.value, 0, polls, 0)
  }

  /** The reports made before the rest of the chunk loop. */
  function Resume(p: seq<nat>, x: (Result<(), Error>, seq<nat>, Conn)): (Result<(), Error>, seq<nat>, Conn)
  {
    (x.0, p + x.1, x.2)
  }

  /** After START is answered: the wait for DONE. Each reply is read with the full
      deadline; DONE ends the session, an `ERROR...` reply raises it verbatim and any
      other reply is skipped. */
  function DoneSpec(c: Conn, budget: nat): (Result<(), Error>, Conn)
    decreases |c.pending|
  {
    var (m, c1) := ReadTextSpec(c, budget);
    if m.Failure? then (Failure(m.error), c1)
    else if m.value == "DONE" then (Success(()), c1)
    else if StartsWith(m.value, "ERROR") then (Failure(DeviceError(m.value)), c1)
    else
      ReadTextReturnsText(c, budget);
      DoneSpec(c1, budget)
  }

  /** START and its answer. */
  function StartSpec(c: Conn, start: string, budget: nat): (Result<(), Error>, Conn)
  {
    var (s, c1) := SendSpec(c, OP_TEXT, Encode(start));
    if s.Failure? then (s, c1)
    else
      var (m, c2) := ReadTextSpec(c1, budget);
      (if m.Failure? then Failure(m.error) else Gate(m.value), c2)
  }

  /** `close()` after the session: a Close frame, written unless its sendall raises. */
  function CloseSpec(c: Conn): Conn
  {
    SendSpec(c, OP_CLOSE, []).1
  }

  /** What a session ends with: the result, the progress reports and the connection. */
  datatype Session = Session(result: Result<(), Error>, progress: seq<nat>, conn: Conn)

  /** The session on a connected client: START, the chunks the reads give, the wait for
      DONE, each phase run only when the one before succeeded, and the close in every
      case. */
  function SessionSpec(c: Conn, start: string, read: Result<seq<seq<byte>>, Error>, budget: nat,
                       polls: nat -> nat): Session
  {
    var (a, c1) := StartSpec(c, start, budget);
    if a.Failure? then Session(a, [], CloseSpec(c1))
    else
      var (b, p, c2) := LoopSpec(c1, read, polls);
      if b.Failure? then Session(b, p, CloseSpec(c2))
      else
        var (d, c3) := DoneSpec(c2, budget);
        Session(d, p, CloseSpec(c3))
  }

  /** The frames of fs that are not Pongs. */
  function NonPongs(fs: seq<Frame>): seq<Frame>
  {
    if fs == [] then [] else (if fs[0].opcode == OP_PONG then [] else [fs[0]]) + NonPongs(fs[1..])
  }

  lemma {:induction false} NonPongsAppend(a: seq<Frame>, b: seq<Frame>)
    ensures NonPongs(a + b) == NonPongs(a) + NonPongs(b)
    decreases |a|
  {
    if a != [] {
      assert (a + b)[1..] == a[1..] + b;
      NonPongsAppend(a[1..], b);
    } else {
      assert a + b == b;
    }
  }

  lemma {:induction false} NonPongsOfPongs(fs: seq<Frame>)
    ensures NonPongs(Pongs(fs)) == []
    decreases |fs|
  {
    if fs != [] {
      OpcodeBitsOfSmall(OP_PONG);
      var head := if fs[0].opcode == OP_PING then [Frame(OP_PONG, fs[0].payload)] else [];
      NonPongsAppend(head, Pongs(fs[1..]));
      NonPongsOfPongs(fs[1..]);
    }
  }

  lemma NonPongsOne(f: Frame)
    requires f.opcode != OP_PONG
    ensures NonPongs([f]) == [f]
  {
    assert [f][1..] == [];
  }

  /** `read_text` adds no frame but Pongs. */
  lemma ReadTextNonPongs(c: Conn, budget: nat)
    ensures var d := ReadTextSpec(c, budget).1;
      d.fails == c.fails && c.sends <= d.sends && NonPongs(d.sent) == NonPongs(c.sent)
  {
    ReadTextSendsPongs(c, budget);
    var d := ReadTextSpec(c, budget).1;
    var q :| d.sent == c.sent + Pongs(q) && c.sends + |Pongs(q)| <= d.sends;
    NonPongsAppend(c.sent, Pongs(q));
    NonPongsOfPongs(q);
    assert NonPongs(c.sent) + [] == NonPongs(c.sent);
  }

  /** The wait for DONE adds no frame but Pongs. */
  lemma {:induction false} DoneNonPongs(c: Conn, budget: nat)
    ensures var d := DoneSpec(c, budget).1;
      d.fails == c.fails && c.sends <= d.sends && NonPongs(d.sent) == NonPongs(c.sent)
    decreases |c.pending|
  {
    var (m, c1) := ReadTextSpec(c, budget);
    ReadTextNonPongs(c, budget);
    if m.Success? && m.value != "DONE" && !StartsWith(m.value, "ERROR") {
      ReadTextReturnsText(c, budget);
      DoneNonPongs(c1, budget);
    }
  }

  /** Frame k of p is a Text frame reading DONE, and rest is what follows it. */
  predicate DoneAt(p: seq<Frame>, k: int, rest: seq<Frame>)
  {
    0 <= k < |p| && p[k].opcode == OP_TEXT && DecodeIgnore(p[k].payload) == "DONE" && rest == p[k + 1..]
  }

  lemma DoneAtShift(p: seq<Frame>, k: nat, j: int, rest: seq<Frame>)
    requires k < |p| && DoneAt(p[k + 1..], j, rest)
    ensures DoneAt(p, k + 1 + j, rest)
  {
    assert p[k + 1 + j] == p[k + 1..][j];
    assert p[k + 1 + j + 1..] == p[k + 1..][j + 1..];
  }

  /** The session succeeds only once the device has sent DONE: some pending Text frame
      reads "DONE", and the frames after it are still pending. */
  lemma {:induction false} DoneNeedsDone(c: Conn, budget: nat)
    ensures var x := DoneSpec(c, budget);
      x.0.Success? ==> exists k :: DoneAt(c.pending, k, x.1.pending)
    decreases |c.pending|
  {
    var (m, c1) := ReadTextSpec(c, budget);
    ReadTextReturnsText(c, budget);
    var x := DoneSpec(c, budget);
    if m.Success? && m.value == "DONE" {
      var k :| 0 <= k < |c.pending| && c.pending[k].opcode == OP_TEXT
        && m.value == DecodeIgnore(c.pending[k].payload) && c1.pending == c.pending[k + 1..];
      assert DoneAt(c.pending, k, x.1.pending);
    } else if m.Success? && !StartsWith(m.value, "ERROR") {
      var k :| 0 <= k < |c.pending| && c1.pending == c.pending[k + 1..];
      DoneNeedsDone(c1, budget);
      if x.0.Success? {
        var j :| DoneAt(c1.pending, j, x.1.pending);
        DoneAtShift(c.pending, k, j, x.1.pending);
      }
    }
  }

  lemma PrefixCons(chunks: seq<seq<byte>>, m: nat, sent: nat)
    requires m < |chunks|
    ensures Binaries(chunks[..m + 1]) == [Frame(OP_BINARY, chunks[0])] + Binaries(chunks[1..][..m])
    ensures Totals(chunks[..m + 1], sent) == [sent + |chunks[0]|] + Totals(chunks[1..][..m], sent + |chunks[0]|)
  {
    var q := chunks[..m + 1];
    assert q[0] == chunks[0] && q[1..] == chunks[1..][..m];
  }

  /** Every sendall call from the next one on goes through. */
  ghost predicate Working(c: Conn)
  {
    forall j :: c.sends <= j ==> !c.fails(j)
  }

  /** Sending a Binary frame takes one sendall call; the frame is the one frame it adds
      when that call goes through, and nothing is added when it raises. */
  lemma BinarySent(c: Conn, chunk: seq<byte>)
    requires |chunk| < LENGTH_LIMIT
    ensures var (s, c1) := SendSpec(c, OP_BINARY, chunk);
      && s.Success? == !NextFails(c) && c1.fails == c.fails && c1.sends == c.sends + 1
      && NonPongs(c1.sent) == NonPongs(c.sent) + (if s.Success? then [Frame(OP_BINARY, chunk)] else [])
  {
    var f := Frame(OP_BINARY, chunk);
    OpcodeBitsOfSmall(OP_BINARY);
    if !NextFails(c) {
      assert SendSpec(c, OP_BINARY, chunk).1.sent == c.sent + [f];
      NonPongsAppend(c.sent, [f]);
      NonPongsOne(f);
    } else {
      assert NonPongs(c.sent) + [] == NonPongs(c.sent);
    }
  }

  /** The chunk loop x, started on c, wrote the Binary frames of the first m chunks
      besides Pongs and reported after each of them; m is all of them if x succeeded. */
  predicate ChunksUpTo(c: Conn, chunks: seq<seq<byte>>, sent: nat, m: int,
                       x: (Result<(), Error>, seq<nat>, Conn))
  {
    && 0 <= m <= |chunks| && (x.0.Success? ==> m == |chunks|)
    && NonPongs(x.2.sent) == NonPongs(c.sent) + Binaries(chunks[..m])
    && x.1 == Totals(chunks[..m], sent)
  }

  lemma ChunksUpToCons(c: Conn, c2: Conn, chunks: seq<seq<byte>>, sent: nat, m: nat,
                       x: (Result<(), Error>, seq<nat>, Conn), y: (Result<(), Error>, seq<nat>, Conn))
    requires chunks != [] && ChunksUpTo(c2, chunks[1..], sent + |chunks[0]|, m, y)
    requires NonPongs(c2.sent) == NonPongs(c.sent) + [Frame(OP_BINARY, chunks[0])]
    requires x == (y.0, [sent + |chunks[0]|] + y.1, y.2)
    ensures ChunksUpTo(c, chunks, sent, m + 1, x)
  {
    PrefixCons(chunks, m, sent);
    assert m == |chunks[1..]| ==> chunks[..m + 1] == chunks;
  }

  /** The chunk loop writes the Binary frames of the first m chunks, besides Pongs, and
      reports after each of them; m is all of them when the loop succeeds. A send that
      raises stops the loop before its chunk is reported. */
  lemma {:induction false} ChunksFrames(c: Conn, chunks: seq<seq<byte>>, sent: nat, polls: nat -> nat, i: nat)
    ensures var x := ChunksSpec(c, chunks, sent, polls, i);
      x.2.fails == c.fails && c.sends <= x.2.sends && exists m :: ChunksUpTo(c, chunks, sent, m, x)
    decreases |chunks|
  {
    var x := ChunksSpec(c, chunks, sent, polls, i);
    assert chunks[..0] == [] && NonPongs(c.sent) + [] == NonPongs(c.sent);
    if chunks == [] || |chunks[0]| >= LENGTH_LIMIT {
      assert ChunksUpTo(c, chunks, sent, 0, x);
    } else {
      BinarySent(c, chunks[0]);
      var (s, c1) := SendSpec(c, OP_BINARY, chunks[0]);
      if s.Failure? {
        assert ChunksUpTo(c, chunks, sent, 0, x);
      } else {
        var total := sent + |chunks[0]|;
        var (e, c2) := DrainSpec(c1, polls(i));
        DrainSendsNothing(c1, polls(i));
        if e.Failure? {
          PrefixCons(chunks, 0, sent);
          assert chunks[1..][..0] == [];
          assert ChunksUpTo(c, chunks, sent, 1, x);
        } else {
          ChunksFrames(c2, chunks[1..], total, polls, i + 1);
          var y := ChunksSpec(c2, chunks[1..], total, polls, i + 1);
          var m' :| ChunksUpTo(c2, chunks[1..], total, m', y);
          ChunksUpToCons(c, c2, chunks, sent, m', x, y);
        }
      }
    }
  }

  /** A chunk whose send raises ends the loop with the socket error: the reports p made so
      far are all there are, and that chunk is neither written nor reported. */
  lemma ChunkSendRaises(c: Conn, chunks: seq<seq<byte>>, sent: nat, polls: nat -> nat, i: nat, p: seq<nat>)
    requires chunks != [] && |chunks[0]| < LENGTH_LIMIT && NextFails(c)
    ensures Resume(p, ChunksSpec(c, chunks, sent, polls, i)) == (Failure(SocketError), p, c.(sends := c.sends + 1))
  {
    assert p + [] == p;
  }

  /** The session x, started on c, wrote besides Pongs START unless its sendall raised,
      then the Binary frames of the first m chunks, giving the state y; then `close()`
      made one more sendall call and wrote the Close frame unless that call raised. The
      reports follow the m chunks, and m is all of them if the session succeeded. */
  ghost predicate SessionUpTo(c: Conn, start: string, read: Result<seq<seq<byte>>, Error>, x: Session,
                              m: nat, y: Conn)
  {
    var chunks := if read.Success? then read.value else [];
    var t := if NextFails(c) then [] else [Frame(OP_TEXT, Encode(start))];
    && m <= |chunks| && (x.result.Success? ==> read.Success? && m == |chunks|)
    && (NextFails(c) ==> m == 0 && x.result == Failure(SocketError))
    && x.progress == Totals(chunks[..m], 0)
    && y.fails == c.fails && c.sends < y.sends
    && NonPongs(y.sent) == NonPongs(c.sent) + t + Binaries(chunks[..m])
    && x.conn.fails == c.fails && x.conn.sends == y.sends + 1
    && x.conn.sent == y.sent + (if y.fails(y.sends) then [] else [Frame(OP_CLOSE, [])])
  }

  /** What a session writes when START fits the length field, whatever sendall calls
      raise: SessionUpTo holds of some m and y, so the reports are those of the chunks
      written, whatever error ended the session, and `close()` is always tried. */
  lemma SessionFrames(c: Conn, start: string, read: Result<seq<seq<byte>>, Error>, budget: nat,
                      polls: nat -> nat)
    requires |Encode(start)| < LENGTH_LIMIT
    ensures exists m: nat, y: Conn :: SessionUpTo(c, start, read, SessionSpec(c, start, read, budget, polls), m, y)
  {
    var x := SessionSpec(c, start, read, budget, polls);
    var chunks := if read.Success? then read.value else [];
    OpcodeBitsOfSmall(OP_CLOSE);
    var c0 := SendSpec(c, OP_TEXT, Encode(start)).1;
    assert chunks[..0] == [];
    if NextFails(c) {
      assert NonPongs(c.sent) + [] == NonPongs(c.sent);
      assert x.conn == CloseSpec(c0) && c0.sent == c.sent;
      assert SessionUpTo(c, start, read, x, 0, c0);
    } else {
      SessionStartSent(c, start, read, budget, polls);
    }
  }

  /** SessionFrames once START went out. */
  lemma SessionStartSent(c: Conn, start: string, read: Result<seq<seq<byte>>, Error>, budget: nat,
                         polls: nat -> nat)
    requires |Encode(start)| < LENGTH_LIMIT && !NextFails(c)
    ensures exists m: nat, y: Conn :: SessionUpTo(c, start, read, SessionSpec(c, start, read, budget, polls), m, y)
  {
    var x := SessionSpec(c, start, read, budget, polls);
    var chunks := if read.Success? then read.value else [];
    var f := Frame(OP_TEXT, Encode(start));
    OpcodeBitsOfSmall(OP_TEXT);
    OpcodeBitsOfSmall(OP_CLOSE);
    var c0 := SendSpec(c, OP_TEXT, Encode(start)).1;
    assert chunks[..0] == [];
    NonPongsOne(f);
    assert c0.sent == c.sent + [f];
    NonPongsAppend(c.sent, [f]);
    var (a, c1) := StartSpec(c, start, budget);
    ReadTextNonPongs(c0, budget);
    assert NonPongs(c1.sent) == NonPongs(c.sent) + [f];
    if a.Success? {
      LoopThenDone(c1, read, budget, polls);
      var (b, p, c2) := LoopSpec(c1, read, polls);
      var y := if b.Success? then DoneSpec(c2, budget).1 else c2;
      var m: nat :| && m <= |chunks| && (b.Success? ==> read.Success? && m == |chunks|)
        && p == Totals(chunks[..m], 0) && y.fails == c1.fails && c1.sends <= y.sends
        && NonPongs(y.sent) == NonPongs(c1.sent) + Binaries(chunks[..m]);
      assert x.conn == CloseSpec(y);
      assert SessionUpTo(c, start, read, x, m, y);
    } else {
      assert x.conn == CloseSpec(c1) && x.progress == [];
      assert SessionUpTo(c, start, read, x, 0, c1);
    }
  }

  /** The chunk loop, then the wait for DONE when the loop succeeded, reaching y: besides
      Pongs, the Binary frames of the first m chunks, with the reports after them. */
  lemma LoopThenDone(c: Conn, read: Result<seq<seq<byte>>, Error>, budget: nat, polls: nat -> nat)
    ensures var (b, p, c2) := LoopSpec(c, read, polls);
      var y := if b.Success? then DoneSpec(c2, budget).1 else c2;
      var chunks := if read.Success? then read.value else [];
      exists m: nat ::
        && m <= |chunks| && (b.Success? ==> read.Success? && m == |chunks|)
        && p == Totals(chunks[..m], 0)
        && y.fails == c.fails && c.sends <= y.sends
        && NonPongs(y.sent) == NonPongs(c.sent) + Binaries(chunks[..m])
  {
    var chunks := if read.Success? then read.value else [];
    assert chunks[..0] == [] && NonPongs(c.sent) + [] == NonPongs(c.sent);
    if read.Success? {
      var y := ChunksSpec(c, chunks, 0, polls, 0);
      ChunksFrames(c, chunks, 0, polls, 0);
      var m :| ChunksUpTo(c, chunks, 0, m, y);
      if y.0.Success? {
        DoneNonPongs(y.2, budget);
      }
    }
  }

  /** On a connection whose sendall calls all go through, a session writes, besides Pongs,
      START, then the Binary frames of the first m chunks, then exactly one Close frame,
      which is the last frame written; the reports follow the m chunks, and m is all of
      them when the session succeeds. */
  lemma SessionOnWorkingSocket(c: Conn, start: string, read: Result<seq<seq<byte>>, Error>, budget: nat,
                               polls: nat -> nat)
    requires Working(c) && |Encode(start)| < LENGTH_LIMIT
    ensures var x := SessionSpec(c, start, read, budget, polls);
      var chunks := if read.Success? then read.value else [];
      exists m :: 0 <= m <= |chunks| && (x.result.Success? ==> read.Success? && m == |chunks|)
        && NonPongs(x.conn.sent)
           == NonPongs(c.sent) + [Frame(OP_TEXT, Encode(start))] + Binaries(chunks[..m]) + [Frame(OP_CLOSE, [])]
        && x.progress == Totals(chunks[..m], 0)
        && x.conn.sent[|x.conn.sent| - 1] == Frame(OP_CLOSE, [])
  {
    var x := SessionSpec(c, start, read, budget, polls);
    var chunks := if read.Success? then read.value else [];
    var close := Frame(OP_CLOSE, []);
    SessionFrames(c, start, read, budget, polls);
    var m: nat, y: Conn :| SessionUpTo(c, start, read, x, m, y);
    assert !y.fails(y.sends);
    NonPongsAppend(y.sent, [close]);
    NonPongsOne(close);
  }

  /** When START cannot be sent, for its length or because its sendall raises, the session
      fails with that error, reports nothing, and writes only the Close frame, unless the
      sendall call of `close()` raises too. */
  lemma SessionStartFails(c: Conn, start: string, read: Result<seq<seq<byte>>, Error>, budget: nat,
                          polls: nat -> nat)
    requires NextFails(c) || |Encode(start)| >= LENGTH_LIMIT
    ensures var x := SessionSpec(c, start, read, budget, polls);
      var long := |Encode(start)| >= LENGTH_LIMIT;
      && x.result == Failure(if long then LengthOverflow else SocketError) && x.progress == []
      && x.conn.sent == c.sent + (if c.fails(c.sends + (if long then 0 else 1)) then [] else [Frame(OP_CLOSE, [])])
  {
    OpcodeBitsOfSmall(OP_CLOSE);
  }

  /** No byte of the file is sent unless the device answered START with READY. */
  lemma ChunksOnlyAfterReady(c: Conn, start: string, read: Result<seq<seq<byte>>, Error>, budget: nat,
                             polls: nat -> nat)
    requires SessionSpec(c, start, read, budget, polls).progress != []
    ensures var c1 := SendSpec(c, OP_TEXT, Encode(start)).1;
      ReadTextSpec(c1, budget).0 == Success("READY")
  {
    var (a, _) := StartSpec(c, start, budget);
    var c1 := SendSpec(c, OP_TEXT, Encode(start)).1;
    var m := ReadTextSpec(c1, budget).0;
    assert a.Success?;
    GateOnlyReady(m.value);
  }

  /** The phase that sends START and checks the answer, as StartSpec says. */
  method SendStart(client: WebSocketClient, start: string, budget: nat) returns (r: Result<(), Error>)
    requires client.Valid() && client.sock != null
    modifies client, client.sock
    ensures client.Valid() && client.sock == old(client.sock)
    ensures (r, client.Wire()) == StartSpec(old(client.Wire()), start, budget)
  {
    var s := client.SendText(start);
    if s.Failure? {
      return s;
    }
    var msg := client.ReadText(budget);
    if msg.Failure? {
      return Failure(msg.error);
    }
    if msg.value == "" {
      return Failure(UnexpectedResponse("<empty>"));
    }
    if StartsWith(msg.value, "ERROR") {
      return Failure(DeviceError(msg.value));
    }
    if msg.value != "READY" {
      return Failure(UnexpectedResponse(msg.value));
    }
    return Success(());
  }

  /** One chunk of the loop, after the reports p: a failed send ends it without a report,
      a failed drain after the report, and otherwise the loop goes on with the next chunk. */
  lemma ChunksHead(c: Conn, chunks: seq<seq<byte>>, sent: nat, polls: nat -> nat, i: nat, p: seq<nat>)
    requires chunks != []
    ensures var total := sent + |chunks[0]|;
      var (s, c1) := SendSpec(c, OP_BINARY, chunks[0]);
      var (d, c2) := DrainSpec(c1, polls(i));
      var x := Resume(p, ChunksSpec(c, chunks, sent, polls, i));
      && (s.Failure? ==> x == (s, p, c1))
      && (s.Success? && d.Failure? ==> x == (Failure(d.error), p + [total], c2))
      && (s.Success? && d.Success? ==>
            x == Resume(p + [total], ChunksSpec(c2, chunks[1..], total, polls, i + 1)))
  {
    var total := sent + |chunks[0]|;
    var (s, c1) := SendSpec(c, OP_BINARY, chunks[0]);
    var (d, c2) := DrainSpec(c1, polls(i));
    var y := ChunksSpec(c2, chunks[1..], total, polls, i + 1);
    assert p + ([total] + y.1) == (p + [total]) + y.1;
    assert p + [] == p;
  }

  lemma ChunksNone(c: Conn, sent: nat, polls: nat -> nat, i: nat, p: seq<nat>)
    ensures Resume(p, ChunksSpec(c, [], sent, polls, i)) == (Success(()), p, c)
  {
    assert p + [] == p;
  }

  /** Send one chunk and drain, as SendSpec and DrainSpec say. */
  method SendChunk(client: WebSocketClient, chunk: seq<byte>, polls: nat)
    returns (s: Result<(), Error>, d: Result<seq<string>, Error>)
    requires client.Valid() && client.sock != null
    modifies client, client.sock
    ensures client.Valid() && client.sock == old(client.sock)
    ensures s == SendSpec(old(client.Wire()), OP_BINARY, chunk).0
    ensures s.Failure? ==> client.Wire() == SendSpec(old(client.Wire()), OP_BINARY, chunk).1
    ensures s.Success? ==> (d, client.Wire()) == DrainSpec(SendSpec(old(client.Wire()), OP_BINARY, chunk).1, polls)
  {
    s := client.SendBinary(chunk);
    d := Success([]);
    if s.Success? {
      d := client.DrainMessages(polls);
    }
  }

  lemma ChunksOfRest(file: seq<byte>, size: int, offset: nat)
    requires size >= -1 && offset <= |file|
    ensures var n := ChunkLength(size, |file| - offset);
      offset + n <= |file|
      && (n == 0 ==> Chunks(file[offset..], size) == [])
      && (n > 0 ==> var cs := Chunks(file[offset..], size);
            cs != [] && cs[0] == file[offset..offset + n] && cs[1..] == Chunks(file[offset + n..], size))
  {
    var n := ChunkLength(size, |file| - offset);
    assert file[offset..][..n] == file[offset..offset + n];
    assert file[offset..][n..] == file[offset + n..];
    if n > 0 {
      var cs := Chunks(file[offset..], size);
      assert cs == [file[offset..offset + n]] + Chunks(file[offset + n..], size);
      assert cs[1..] == Chunks(file[offset + n..], size);
    }
  }

  /** The loop's invariant carried over one chunk that was sent and drained. */
  lemma ChunksAdvance(c: Conn, file: seq<byte>, size: int, offset: nat, n: nat, polls: nat -> nat, i: nat,
                      progress: seq<nat>)
    requires size >= -1 && offset <= |file| && n == ChunkLength(size, |file| - offset) && n > 0
    requires SendSpec(c, OP_BINARY, file[offset..offset + n]).0.Success?
    requires DrainSpec(SendSpec(c, OP_BINARY, file[offset..offset + n]).1, polls(i)).0.Success?
    ensures var c2 := DrainSpec(SendSpec(c, OP_BINARY, file[offset..offset + n]).1, polls(i)).1;
      Resume(progress, ChunksSpec(c, Chunks(file[offset..], size), offset, polls, i))
        == Resume(progress + [offset + n], ChunksSpec(c2, Chunks(file[offset + n..], size), offset + n, polls, i + 1))
  {
    var cs := Chunks(file[offset..], size);
    ChunksOfRest(file, size, offset);
    assert cs[0] == file[offset..offset + n] && |cs[0]| == n;
    var c1 := SendSpec(c, OP_BINARY, cs[0]).1;
    var c2 := DrainSpec(c1, polls(i)).1;
    ChunksHead(c, cs, offset, polls, i, progress);
    assert Resume(progress, ChunksSpec(c, cs, offset, polls, i))
        == Resume(progress + [offset + n], ChunksSpec(c2, cs[1..], offset + n, polls, i + 1));
  }

  /** The loop's result when a chunk's send or drain fails. */
  lemma ChunksFail(c: Conn, file: seq<byte>, size: int, offset: nat, polls: nat -> nat, i: nat,
                   progress: seq<nat>)
    requires size >= -1 && offset <= |file| && ChunkLength(size, |file| - offset) > 0
    ensures var n := ChunkLength(size, |file| - offset);
      var chunk := file[offset..offset + n];
      var (s, c1) := SendSpec(c, OP_BINARY, chunk);
      var (d, c2) := DrainSpec(c1, polls(i));
      var x := Resume(progress, ChunksSpec(c, Chunks(file[offset..], size), offset, polls, i));
      && (s.Failure? ==> x == (s, progress, c1))
      && (s.Success? && d.Failure? ==> x == (Failure(d.error), progress + [offset + n], c2))
  {
    ChunksOfRest(file, size, offset);
    ChunksHead(c, Chunks(file[offset..], size), offset, polls, i, progress);
  }

  /** The loop's result when the read returns nothing. */
  lemma ChunksEnd(c: Conn, file: seq<byte>, size: int, offset: nat, polls: nat -> nat, i: nat,
                  progress: seq<nat>)
    requires size >= -1 && offset <= |file| && ChunkLength(size, |file| - offset) == 0
    ensures Resume(progress, ChunksSpec(c, Chunks(file[offset..], size), offset, polls, i))
      == (Success(()), progress, c)
  {
    ChunksOfRest(file, size, offset);
    ChunksNone(c, offset, polls, i, progress);
  }

  /** A pass of the chunk loop on a chunk that is not empty: send it, report the total,
      drain. */
  method SendPass(client: WebSocketClient, file: seq<byte>, size: int, polls: nat -> nat,
                  offset: nat, n: nat, i: nat, progress: seq<nat>)
    returns (stop: Option<Result<(), Error>>, reports: seq<nat>)
    requires client.Valid() && client.sock != null && size >= -1 && offset <= |file|
    requires n == ChunkLength(size, |file| - offset) && n > 0
    modifies client, client.sock
    ensures client.Valid() && client.sock == old(client.sock)
    ensures stop.Some? ==>
      Resume(progress, ChunksSpec(old(client.Wire()), Chunks(file[offset..], size), offset, polls, i))
        == (stop.value, reports, client.Wire())
    ensures stop.None? ==> reports == progress + [offset + n]
    ensures stop.None? ==>
      Resume(progress, ChunksSpec(old(client.Wire()), Chunks(file[offset..], size), offset, polls, i))
        == Resume(reports, ChunksSpec(client.Wire(), Chunks(file[offset + n..], size), offset + n, polls, i + 1))
  {
    ghost var c := client.Wire();
    ChunksFail(c, file, size, offset, polls, i, progress);
    var s, d := SendChunk(client, file[offset..offset + n], polls(i));
    if s.Failure? {
      return Some(s), progress;
    }
    reports := progress + [offset + n];
    if d.Failure? {
      return Some(Failure(d.error)), reports;
    }
    ChunksAdvance(c, file, size, offset, n, polls, i, progress);
    return None, reports;
  }

  /** The chunk loop: read a chunk, send it, report the total, drain, until a read
      returns nothing; as LoopSpec says of what the reads give. A size below -1 makes the
      loop's first read raise, before anything is sent. */
  method SendChunks(client: WebSocketClient, file: seq<byte>, size: int, polls: nat -> nat)
    returns (r: Result<(), Error>, progress: seq<nat>)
    requires client.Valid() && client.sock != null
    modifies client, client.sock
    ensures client.Valid() && client.sock == old(client.sock)
    ensures (r, progress, client.Wire()) == LoopSpec(old(client.Wire()), ReadChunks(file, size), polls)
  {
    if size < -1 {
      return Failure(ReadLengthInvalid), [];
    }
    r, progress := ChunkLoop(client, file, size, polls);
  }

  /** The chunk loop for a size `f.read` accepts, as ChunksSpec says of the file's
      chunks. */
  method ChunkLoop(client: WebSocketClient, file: seq<byte>, size: int, polls: nat -> nat)
    returns (r: Result<(), Error>, progress: seq<nat>)
    requires client.Valid() && client.sock != null && size >= -1
    modifies client, client.sock
    ensures client.Valid() && client.sock == old(client.sock)
    ensures (r, progress, client.Wire()) == ChunksSpec(old(client.Wire()), Chunks(file, size), 0, polls, 0)
  {
    var offset: nat := 0;
    var i: nat := 0;
    progress := [];
    assert file[0..] == file;
    ghost var whole := ChunksSpec(client.Wire(), Chunks(file, size), 0, polls, 0);
    assert [] + whole.1 == whole.1;
    while true
      invariant client.Valid() && client.sock == old(client.sock) && offset <= |file|
      invariant Resume(progress, ChunksSpec(client.Wire(), Chunks(file[offset..], size), offset, polls, i))
        == whole
      decreases |file| - offset
    {
      var stop, reports, next := ChunkTurn(client, file, size, polls, offset, i, progress, whole);
      if stop.Some? {
        return stop.value, reports;
      }
      offset, i, progress := next, i + 1, reports;
    }
  }

  /** One turn of the chunk loop, whose run from here on is whole: a read that returns
      nothing ends the loop with success; otherwise the chunk is sent, reported and
      drained, and either that ends the loop or it goes on after the chunk. */
  method ChunkTurn(client: WebSocketClient, file: seq<byte>, size: int, polls: nat -> nat,
                   offset: nat, i: nat, progress: seq<nat>, ghost whole: (Result<(), Error>, seq<nat>, Conn))
    returns (stop: Option<Result<(), Error>>, reports: seq<nat>, next: nat)
    requires client.Valid() && client.sock != null && size >= -1 && offset <= |file|
    requires Resume(progress, ChunksSpec(client.Wire(), Chunks(file[offset..], size), offset, polls, i)) == whole
    modifies client, client.sock
    ensures client.Valid() && client.sock == old(client.sock)
    ensures stop.Some? ==> (stop.value, reports, client.Wire()) == whole
    ensures stop.None? ==> offset < next <= |file|
    ensures stop.None? ==>
      Resume(reports, ChunksSpec(client.Wire(), Chunks(file[next..], size), next, polls, i + 1)) == whole
  {
    var n := ChunkLength(size, |file| - offset);
    var chunk := file[offset..offset + n];
    if chunk == [] {
      ChunksEnd(client.Wire(), file, size, offset, polls, i, progress);
      return Some(Success(())), progress, offset;
    }
    stop, reports := SendPass(client, file, size, polls, offset, n, i, progress);
    next := offset + n;
  }

  /** The wait for DONE, as DoneSpec says. */
  method AwaitDone(client: WebSocketClient, budget: nat) returns (r: Result<(), Error>)
    requires client.Valid() && client.sock != null
    modifies client, client.sock
    ensures client.Valid() && client.sock == old(client.sock)
    ensures (r, client.Wire()) == DoneSpec(old(client.Wire()), budget)
  {
    while true
      invariant client.Valid() && client.sock == old(client.sock)
      invariant DoneSpec(client.Wire(), budget) == DoneSpec(old(client.Wire()), budget)
      decreases |client.Wire().pending|
    {
      ghost var c := client.Wire();
      var msg := client.ReadText(budget);
      if msg.Failure? {
        return Failure(msg.error);
      }
      if msg.value == "DONE" {
        return Success(());
      }
      if StartsWith(msg.value, "ERROR") {
        return Failure(DeviceError(msg.value));
      }
      ReadTextReturnsText(c, budget);
    }
  }

  /** The body of `upload_file` on a connected client, with the close of its `finally`
      on every path: what the client sent, including the Close frame, is SessionSpec's,
      and by SentOnWire it is what the socket carries. */
  method UploadSession(client: WebSocketClient, uploadPath: string, filename: string, file: seq<byte>,
                       size: int, budget: nat, polls: nat -> nat)
    returns (r: Result<(), Error>, progress: seq<nat>)
    requires client.Valid() && client.sock != null
    modifies client, client.sock
    ensures client.Valid() && client.sock == null
    ensures old(client.sock).closed && client.Recorded(old(client.sock))
    ensures var x := SessionSpec(old(client.Wire()), StartMessage(filename, |file|, uploadPath),
                                 ReadChunks(file, size), budget, polls);
      r == x.result && progress == x.progress && client.log.frames == x.conn.sent
  {
    var start := StartMessage(filename, |file|, uploadPath);
    progress := [];
    r := SendStart(client, start, budget);
    if r.Success? {
      r, progress := SendChunks(client, file, size, polls);
      if r.Success? {
        r := AwaitDone(client, budget);
      }
    }
    ghost var c := client.Wire();
    OpcodeBitsOfSmall(OP_CLOSE);
    client.Close();
    assert client.log.frames == CloseSpec(c).sent;
  }

  /** The connection after the handshake read data from the peer's stream u: the frames in
      what is left, none sent yet, and the upgrade request's sendall call, the n-th, made. */
  function Opened(u: seq<byte>, data: seq<byte>, fails: nat -> bool, n: nat): Conn
    requires |data| <= |u|
  {
    Conn(DecodeAll(u[|data|..]), [], fails, n + 1)
  }

  /** `connect` on a peer that accepted the TCP connection: req is the encoded upgrade
      request, u the peer's stream, k the most one recv delivers, fails(i) whether the
      i-th sendall call raises and n the number of calls made before. The result is the
      handshake's, and the connection is what is left of the stream after the reply, with
      nothing sent on it yet. */
  function OpenSpec(req: Option<seq<byte>>, u: seq<byte>, k: nat, fails: nat -> bool, n: nat)
    : (Result<(), Error>, Conn)
    requires k > 0
  {
    if req.None? then (Failure(EncodingError), Conn(DecodeAll(u), [], fails, n))
    else if fails(n) then (Failure(SocketError), Conn(DecodeAll(u), [], fails, n + 1))
    else
      var data := HttpRead(u, k, []);
      (HandshakeResult(data), Opened(u, data, fails, n))
  }

  /** `upload_file` on a peer that accepted the TCP connection. A request that cannot be
      encoded, a failed sendall and a refused handshake end it before START; every path
      closes the client. */
  function UploadSpec(req: Option<seq<byte>>, u: seq<byte>, k: nat, fails: nat -> bool, n: nat, start: string,
                      read: Result<seq<seq<byte>>, Error>, budget: nat, polls: nat -> nat): Session
    requires k > 0
  {
    var (h, c) := OpenSpec(req, u, k, fails, n);
    if h.Failure? then Session(h, [], CloseSpec(c))
    else SessionSpec(c, start, read, budget, polls)
  }

  /** An upload succeeds only over an upgraded connection: the request was encodable, its
      sendall went through, the status line of the reply held ' 101 ', and the session on
      what followed the reply succeeded. */
  lemma UploadNeedsHandshake(req: Option<seq<byte>>, u: seq<byte>, k: nat, fails: nat -> bool, n: nat,
                             start: string, read: Result<seq<seq<byte>>, Error>, budget: nat,
                             polls: nat -> nat)
    requires k > 0 && UploadSpec(req, u, k, fails, n, start, read, budget, polls).result.Success?
    ensures req.Some? && !fails(n)
    ensures var data := HttpRead(u, k, []);
      Occurs(STATUS_101, FirstLine(data))
      && SessionSpec(Opened(u, data, fails, n), start, read, budget, polls).result.Success?
  {
  }

  /** A refused handshake sends nothing but the Close frame, and that only when the
      sendall call of `close()` goes through. */
  lemma RefusedSendsOnlyClose(req: Option<seq<byte>>, u: seq<byte>, k: nat, fails: nat -> bool, n: nat,
                              start: string, read: Result<seq<seq<byte>>, Error>, budget: nat,
                              polls: nat -> nat)
    requires k > 0 && req.Some? && !fails(n) && !Occurs(STATUS_101, FirstLine(HttpRead(u, k, [])))
    ensures var x := UploadSpec(req, u, k, fails, n, start, read, budget, polls);
      x.result == Failure(HandshakeFailed(AsciiIgnore(FirstLine(HttpRead(u, k, [])))))
      && x.progress == [] && x.conn.sent == (if fails(n + 1) then [] else [Frame(OP_CLOSE, [])])
  {
    OpcodeBitsOfSmall(OP_CLOSE);
  }

  /** `connect` on a socket, as OpenSpec says. */
  method Open(client: WebSocketClient, peer: Socket, key: string) returns (r: Result<(), Error>)
    requires client.Valid() && peer.Valid()
    modifies client, peer
    ensures client.Valid() && client.sock == peer
    ensures (r, client.Wire()) == OpenSpec(AsciiEncode(Request(client.host, client.port, key)), old(peer.Unread()),
                                           Min(RESPONSE_CHUNK, old(peer.maxRecv)), old(peer.fails), old(peer.sends))
  {
    ghost var u := peer.Unread();
    ghost var n := peer.sends;
    r := client.Connect(peer, key);
    ghost var req := AsciiEncode(Request(client.host, client.port, key));
    if req.Some? && !peer.fails(n) {
      ghost var data := HttpRead(u, Min(RESPONSE_CHUNK, peer.maxRecv), []);
      assert peer.inbound[peer.pos..] == u[|data|..];
    }
  }

  /** `upload_file(host, port, ...)`: a fresh client, `connect`, then the session; the
      `finally` closes the client whatever happened. peer is the socket create_connection
      returns (null when it raises), key the Sec-WebSocket-Key, masks the masking keys,
      and the file's bytes stand for the file both `os.path.getsize` and the reads see. */
  method UploadFile(host: string, port: int, masks: nat -> Mask, peer: Socket?, key: string,
                    uploadPath: string, filename: string, file: seq<byte>, size: int,
                    budget: nat, polls: nat -> nat)
    returns (r: Result<(), Error>, progress: seq<nat>, client: WebSocketClient)
    requires peer != null ==> peer.Valid()
    modifies peer
    ensures fresh(client) && client.Valid() && client.sock == null
    ensures peer == null ==> r == Failure(SocketError) && progress == []
    ensures peer != null ==>
      var x := UploadSpec(AsciiEncode(Request(host, port, key)), old(peer.Unread()),
                          Min(RESPONSE_CHUNK, old(peer.maxRecv)), old(peer.fails), old(peer.sends),
                          StartMessage(filename, |file|, uploadPath), ReadChunks(file, size), budget, polls);
      && r == x.result && progress == x.progress && client.log.frames == x.conn.sent
      && peer.closed && client.Recorded(peer)
  {
    client := new WebSocketClient(host, port, masks);
    progress := [];
    if peer == null {
      r := client.Connect(peer, key);
      return;
    }
    r := Open(client, peer, key);
    if r.Failure? {
      ghost var c := client.Wire();
      OpcodeBitsOfSmall(OP_CLOSE);
      client.Close();
      assert client.log.frames == CloseSpec(c).sent;
      return;
    }
    r, progress := UploadSession(client, uploadPath, filename, file, size, budget, polls);
  }
}
