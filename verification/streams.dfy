/** The buffered stream layer (src/stream.rs): the look-aside buffer of
    `ReaderWithBuffer`, the std `BufReader` wrapped around it, and the
    synchronous `Stream` that the session reads and writes through. */
module Streams {
  import opened Base
  import opened Errors
  import opened ScriptedIo

  /** Capacity of std's `BufReader` (its default of 8 KiB). */
  const BufReaderCapacity: nat := 8192

  /** Length of the scratch array `read_available` reads into. */
  const ChunkSize: nat := 248

  /** `ReaderWithBuffer<R>`: bytes kept aside (`buffer`) in front of the
      inner reader, which here is a script of read answers. */
  datatype ReaderWithBuffer = ReaderWithBuffer(inner: seq<ReadEvent>, buffer: seq<u8>) {
    /** Every byte this reader will still hand out, in order. */
    function Content(): seq<u8> {
      buffer + Flat(inner)
    }
  }

  /** std's `BufReader` over the look-aside reader: `buf` holds the bytes
      it has read ahead and not yet handed out. */
  datatype BufReader = BufReader(buf: seq<u8>, reader: ReaderWithBuffer) {
    /** Every byte a reader of the `BufReader` will still get, in order. */
    function Unread(): seq<u8> {
      buf + reader.Content()
    }
  }

  /** `sync_stream::Stream`: the child's input and its buffered output. */
  datatype Stream = Stream(input: Writer, output: BufReader) {
    /** `get_available`: the look-aside buffer. */
    function Available(): seq<u8> {
      output.reader.buffer
    }

    /** What the `BufReader` has read ahead. */
    function Pending(): seq<u8> {
      output.buf
    }

    function Script(): seq<ReadEvent> {
      output.reader.inner
    }

    /** Every byte not yet handed out, in the order the look-aside
        operations (`flush_in_buffer` and the `read_available` family) put
        them: look-aside buffer, then read-ahead, then the inner reader. */
    function Backlog(): seq<u8> {
      Available() + Pending() + Flat(Script())
    }

    /** The same bytes in the order `Read` hands them out: the read-ahead
        first, then whatever the look-aside reader gives. */
    function Delivery(): seq<u8> {
      output.Unread()
    }
  }

  // ---------------------------------------------------------------------
  // ReaderWithBuffer

  /** `ReaderWithBuffer::keep_in_buffer`: `buffer.extend(v)`. */
  function KeepInBufferOf(r: ReaderWithBuffer, v: seq<u8>): (r': ReaderWithBuffer)
    ensures r'.inner == r.inner
    ensures HasPrefix(r'.buffer, r.buffer) && r'.buffer[|r.buffer|..] == v
  {
    r.(buffer := r.buffer + v)
  }

  /** The synchronous `Read` impl of `ReaderWithBuffer`: an empty buffer
      delegates to the inner reader; otherwise as many buffered bytes as
      fit are copied out and drained, and the inner reader is left alone. */
  function ReadBuffered(r: ReaderWithBuffer, cap: nat): (res: (Result<seq<u8>, IoError>, ReaderWithBuffer))
    ensures res.0.Ok? ==> |res.0.value| <= cap && res.0.value + res.1.Content() == r.Content()
    ensures res.0.Err? ==> res.1.Content() == r.Content()
    ensures |r.buffer| > 0 ==>
      && res.0 == Ok(r.buffer[..Min(cap, |r.buffer|)])
      && res.1.buffer == r.buffer[Min(cap, |r.buffer|)..]
      && res.1.inner == r.inner
    ensures |r.buffer| == 0 ==>
      && res.1.buffer == []
      && (res.0, res.1.inner) == InnerRead(r.inner, cap)
  {
    if |r.buffer| == 0 then
      var (result, rest) := InnerRead(r.inner, cap);
      (result, r.(inner := rest))
    else
      var n := Min(cap, |r.buffer|);
      assert r.buffer[..n] + r.buffer[n..] == r.buffer;
      (Ok(r.buffer[..n]), r.(buffer := r.buffer[n..]))
  }

  // ---------------------------------------------------------------------
  // The async `poll_read` of ReaderWithBuffer

  /** What the async inner reader answers: `Async` turns WouldBlock into
      `Poll::Pending`. */
  datatype InnerPoll = ReadyData(bytes: seq<u8>) | ReadyErr(err: IoError) | NotReady

  function PollInner(script: seq<ReadEvent>, cap: nat): (r: (InnerPoll, seq<ReadEvent>))
    ensures r.0.ReadyData? ==> |r.0.bytes| <= cap && r.0.bytes + Flat(r.1) == Flat(script)
    ensures !r.0.ReadyData? ==> Flat(r.1) == Flat(script)
  {
    var (result, rest) := InnerRead(script, cap);
    if result.Ok? then (ReadyData(result.value), rest)
    else if result.error.kind == WouldBlock then (NotReady, rest)
    else (ReadyErr(result.error), rest)
  }

  /** A `poll_read` answer; `Panicked` stands for a slice index out of range. */
  datatype Poll = Ready(result: Result<nat, IoError>) | Pending | Panicked

  /** The async `poll_read` of `ReaderWithBuffer` as written. `buf.write`
      on a `&mut [u8]` advances the slice past the `n` bytes it copied, so
      the following `&mut buf[n..]` starts `2 * n` bytes into the caller's
      buffer: it panics when `2 * n` exceeds the buffer, and otherwise the
      inner reader's bytes land `n` bytes too far while the count returned
      claims they follow the buffered ones. A `Pending` inner reader loses
      the `n` bytes already drained. */
  function PollReadAsWritten(r: ReaderWithBuffer, dest: seq<u8>): (res: (Poll, seq<u8>, ReaderWithBuffer))
    ensures |res.1| == |dest|
  {
    if |r.buffer| == 0 then
      var (answer, rest) := PollInner(r.inner, |dest|);
      match answer
      case ReadyData(bytes) => (Ready(Ok(|bytes|)), bytes + dest[|bytes|..], r.(inner := rest))
      case ReadyErr(err) => (Ready(Err(err)), dest, r.(inner := rest))
      case NotReady => (Pending, dest, r.(inner := rest))
    else
      var n := Min(|dest|, |r.buffer|);
      var copied := r.buffer[..n] + dest[n..];
      var drained := r.(buffer := r.buffer[n..]);
      // `buf` now names copied[n..]; re-slicing it at n starts at 2 * n
      if 2 * n > |dest| then (Panicked, copied, drained)
      else
        var (answer, rest) := PollInner(r.inner, |dest| - 2 * n);
        match answer
        case ReadyData(bytes) =>
          (Ready(Ok(n + |bytes|)), copied[..2 * n] + bytes + copied[2 * n + |bytes|..], drained.(inner := rest))
        case ReadyErr(_) => (Ready(Ok(n)), copied, drained.(inner := rest))
        case NotReady => (Pending, copied, drained.(inner := rest))
  }

  /** The look-aside buffer holds three bytes and the caller offers four:
      the copy leaves a one-byte slice, which is then sliced at 3. */
  lemma PollReadAsWrittenPanics()
    ensures PollReadAsWritten(ReaderWithBuffer([], [1, 2, 3]), [0, 0, 0, 0]).0 == Panicked
  {
  }

  /** One buffered byte 7 and an inner reader holding 8, 9: the caller is
      told three bytes arrived, but they read 7, 0, 8 instead of 7, 8, 9. */
  lemma PollReadAsWrittenMisplaces()
    ensures var (poll, dest', _) := PollReadAsWritten(ReaderWithBuffer([Data([8, 9])], [7]), [0, 0, 0, 0]);
      poll == Ready(Ok(3)) && dest'[..3] == [7, 0, 8] && dest'[..3] != [7, 8, 9]
  {
    var r := ReaderWithBuffer([Data([8, 9])], [7]);
    assert PollInner(r.inner, 2).0 == ReadyData([8, 9]);
  }

  /** One buffered byte, a three-byte destination (so the inner reader is
      offered one byte of room) and a quiet inner reader: the byte is
      drained from the buffer, yet the caller only hears `Pending`; it is
      gone. The corrected read reports it. */
  lemma PollReadAsWrittenLosesBytes()
    ensures var (poll, _, r') := PollReadAsWritten(ReaderWithBuffer([], [7]), [0, 0, 0]);
      poll == Pending && r'.Content() == []
    ensures var (poll, dest', _) := PollRead(ReaderWithBuffer([], [7]), [0, 0, 0]);
      poll == Ready(Ok(1)) && dest'[..1] == [7]
  {
  }

  /** The evidently intended `poll_read`: the inner reader fills the
      caller's buffer right after the copied bytes, and once buffered
      bytes were handed over they are reported even if the inner reader
      fails or is not ready. */
  function PollRead(r: ReaderWithBuffer, dest: seq<u8>): (res: (Poll, seq<u8>, ReaderWithBuffer))
    ensures |res.1| == |dest|
    ensures !res.0.Panicked?
    ensures res.0 == Pending ==> |r.buffer| == 0 && res.1 == dest
    ensures res.0.Ready? && res.0.result.Ok? ==>
      var k := res.0.result.value;
      k <= |dest| && res.1[..k] + res.2.Content() == r.Content() && res.1[k..] == dest[k..]
    ensures res.0.Ready? && res.0.result.Err? ==> |r.buffer| == 0 && res.2.Content() == r.Content()
    ensures |r.buffer| > 0 && |dest| > 0 ==> res.0.Ready? && res.0.result.Ok? && res.0.result.value > 0
  {
    if |r.buffer| == 0 then PollUnbuffered(r, dest) else PollBuffered(r, dest)
  }

  /** `poll_read` with an empty look-aside buffer: straight to the inner reader. */
  function PollUnbuffered(r: ReaderWithBuffer, dest: seq<u8>): (res: (Poll, seq<u8>, ReaderWithBuffer))
    requires |r.buffer| == 0
    ensures |res.1| == |dest| && !res.0.Panicked?
    ensures res.0 == Pending ==> res.1 == dest && res.2.Content() == r.Content()
    ensures res.0.Ready? && res.0.result.Ok? ==>
      var k := res.0.result.value;
      k <= |dest| && res.1[..k] + res.2.Content() == r.Content() && res.1[k..] == dest[k..]
    ensures res.0.Ready? && res.0.result.Err? ==> res.2.Content() == r.Content()
  {
    var (answer, rest) := PollInner(r.inner, |dest|);
    match answer
    case ReadyData(bytes) =>
      var dest' := bytes + dest[|bytes|..];
      assert dest'[..|bytes|] == bytes;
      (Ready(Ok(|bytes|)), dest', r.(inner := rest))
    case ReadyErr(err) => (Ready(Err(err)), dest, r.(inner := rest))
    case NotReady => (Pending, dest, r.(inner := rest))
  }

  /** The corrected `poll_read` with buffered bytes: copy, drain, and let
      the inner reader fill the rest of the destination. */
  function PollBuffered(r: ReaderWithBuffer, dest: seq<u8>): (res: (Poll, seq<u8>, ReaderWithBuffer))
    requires |r.buffer| > 0
    ensures |res.1| == |dest| && res.0.Ready? && res.0.result.Ok?
    ensures var k := res.0.result.value;
      && (|dest| > 0 ==> k > 0)
      && k <= |dest| && res.1[..k] + res.2.Content() == r.Content() && res.1[k..] == dest[k..]
  {
    if |dest| <= |r.buffer| then
      // the destination is filled from the buffer alone
      var n := |dest|;
      assert r.buffer[..n] + r.buffer[n..] == r.buffer;
      (Ready(Ok(n)), r.buffer[..n], r.(buffer := r.buffer[n..]))
    else
      var (k, dest', r') := PollAfterBuffer(r, dest);
      (Ready(Ok(k)), dest', r')
  }

  /** Bytes copied over the front of a destination, followed by the rest
      of the destination. */
  lemma FillInFront(buffer: seq<u8>, bytes: seq<u8>, flat: seq<u8>, dest: seq<u8>)
    requires |buffer| + |bytes| <= |dest|
    ensures var dest' := (buffer + bytes) + dest[|buffer| + |bytes|..];
      && |dest'| == |dest|
      && dest'[..|buffer| + |bytes|] + flat == buffer + (bytes + flat)
      && dest'[|buffer| + |bytes|..] == dest[|buffer| + |bytes|..]
  {
    var front := buffer + bytes;
    var dest' := front + dest[|front|..];
    assert dest'[..|front|] == front;
  }

  /** The whole buffer fits: it is copied, and the inner reader is polled
      for the rest of the destination. A failing or quiet inner reader
      still leaves the copied bytes reported. */
  function PollAfterBuffer(r: ReaderWithBuffer, dest: seq<u8>): (res: (nat, seq<u8>, ReaderWithBuffer))
    requires 0 < |r.buffer| < |dest|
    ensures |res.1| == |dest| && |r.buffer| <= res.0 <= |dest|
    ensures res.1[..res.0] + res.2.Content() == r.Content()
    ensures res.1[res.0..] == dest[res.0..]
  {
    var n := |r.buffer|;
    var polled := PollInner(r.inner, |dest| - n);
    var bytes := if polled.0.ReadyData? then polled.0.bytes else [];
    var dest' := (r.buffer + bytes) + dest[n + |bytes|..];
    FillInFront(r.buffer, bytes, Flat(polled.1), dest);
    (n + |bytes|, dest', ReaderWithBuffer(polled.1, []))
  }

  // ---------------------------------------------------------------------
  // std BufReader, as far as the stream relies on it

  /** `BufReader::read`: with nothing read ahead and a destination at
      least as large as its capacity it reads straight through; otherwise
      it fills its read-ahead from the look-aside reader when empty and
      copies out of it. */
  function BufRead(b: BufReader, cap: nat): (res: (Result<seq<u8>, IoError>, BufReader))
    ensures res.0.Ok? ==> |res.0.value| <= cap
    ensures res.0.Ok? ==> res.0.value + res.1.Unread() == b.Unread()
    ensures res.0.Err? ==> res.1.Unread() == b.Unread()
    ensures |b.buf| > 0 ==> res.1.reader == b.reader && res.0 == Ok(b.buf[..Min(cap, |b.buf|)])
  {
    if |b.buf| == 0 && cap >= BufReaderCapacity then
      var (result, reader') := ReadBuffered(b.reader, cap);
      assert b.Unread() == b.reader.Content();
      assert b.(reader := reader').Unread() == reader'.Content();
      (result, b.(reader := reader'))
    else
      var (filled, b') := FillBuf(b);
      if filled.Err? then (Err(filled.error), b')
      else
        var n := Min(cap, |b'.buf|);
        SplitInFront(b'.buf, n, b'.reader.Content());
        (Ok(b'.buf[..n]), b'.(buf := b'.buf[n..]))
  }

  /** `BufRead::fill_buf` of `BufReader`: refills the read-ahead only when
      it is empty, and returns it. */
  function FillBuf(b: BufReader): (res: (Result<seq<u8>, IoError>, BufReader))
    ensures res.0.Ok? ==> res.0.value == res.1.buf
    ensures res.1.Unread() == b.Unread()
    ensures |b.buf| > 0 ==> res == (Ok(b.buf), b)
  {
    if |b.buf| > 0 then (Ok(b.buf), b)
    else
      var (result, reader') := ReadBuffered(b.reader, BufReaderCapacity);
      if result.Err? then (Err(result.error), b.(reader := reader'))
      else (Ok(result.value), BufReader(result.value, reader'))
  }

  /** `BufRead::consume` of `BufReader`: drops up to `amt` read-ahead bytes. */
  function ConsumeBuf(b: BufReader, amt: nat): (b': BufReader)
    ensures b'.reader == b.reader
    ensures b'.buf == b.buf[Min(amt, |b.buf|)..]
  {
    b.(buf := b.buf[Min(amt, |b.buf|)..])
  }

  // ---------------------------------------------------------------------
  // sync_stream::Stream

  /** `Stream::consume_from_buffer`: `buffer.drain(..n)`, which panics
      unless `n` is at most the buffer's length. */
  function ConsumeFromBuffer(s: Stream, n: nat): (s': Stream)
    requires n <= |s.Available()|
    ensures s.Available()[..n] + s'.Available() == s.Available()
    ensures |s'.Available()| == |s.Available()| - n
    ensures s'.Pending() == s.Pending() && s'.Script() == s.Script() && s'.input == s.input
    ensures s.Available()[..n] + s'.Backlog() == s.Backlog()
  {
    assert s.Available()[..n] + s.Available()[n..] == s.Available();
    s.(output := s.output.(reader := s.output.reader.(buffer := s.Available()[n..])))
  }

  /** `Stream::keep_in_buffer`. */
  function KeepInBuffer(s: Stream, v: seq<u8>): (s': Stream)
    ensures s'.Available() == s.Available() + v
    ensures s'.Pending() == s.Pending() && s'.Script() == s.Script() && s'.input == s.input
  {
    s.(output := s.output.(reader := KeepInBufferOf(s.output.reader, v)))
  }

  /** `Stream::flush_in_buffer`: the read-ahead of the `BufReader` is
      consumed and appended to the look-aside buffer. */
  function FlushInBuffer(s: Stream): (s': Stream)
    ensures s'.Pending() == []
    ensures s'.Available() == s.Available() + s.Pending()
    ensures s'.Script() == s.Script() && s'.input == s.input
    ensures s'.Backlog() == s.Backlog()
  {
    var b := s.Pending();
    var s1 := s.(output := ConsumeBuf(s.output, |b|));
    KeepInBuffer(s1, b)
  }

  /** The flush keeps the order in which `Read` would have handed the bytes
      out whenever one of the two buffers is empty. */
  lemma FlushInBufferKeepsDeliveryOrder(s: Stream)
    requires |s.Pending()| == 0 || |s.Available()| == 0
    ensures FlushInBuffer(s).Delivery() == s.Delivery()
  {
  }

  /** When both buffers hold bytes the flush puts the read-ahead behind the
      look-aside bytes, which `Read` would have handed out after it. */
  lemma FlushInBufferReorders()
    ensures var s := Stream(Writer([], None), BufReader([1], ReaderWithBuffer([], [2])));
      s.Delivery() == [1, 2] && FlushInBuffer(s).Delivery() == [2, 1]
  {
  }

  /** A look-aside buffer longer than the `BufReader`'s capacity, read
      through `Read`, leaves bytes in both buffers at once. */
  lemma BothBuffersReachable(bytes: seq<u8>)
    requires |bytes| == BufReaderCapacity + 1
    ensures var s := Stream(Writer([], None), BufReader([], ReaderWithBuffer([], bytes)));
      var (_, s') := Read(s, 1);
      |s'.Pending()| > 0 && |s'.Available()| > 0
  {
  }

  /** The non-buffered, non-blocking read `try_read_inner` of the inner
      reader, bypassing both buffers. */
  function TryReadInner(s: Stream, cap: nat): (res: (Result<seq<u8>, IoError>, Stream))
    ensures (res.0, res.1.Script()) == InnerRead(s.Script(), cap)
    ensures res.1.Available() == s.Available() && res.1.Pending() == s.Pending() && res.1.input == s.input
  {
    var (result, rest) := InnerRead(s.Script(), cap);
    (result, s.(output := s.output.(reader := s.output.reader.(inner := rest))))
  }

  /** `Stream::read_available_once`: flush, then one inner read into a
      `cap`-byte array; Ok(0) is reported as `Some(0)`, data is kept in the
      buffer and counted, WouldBlock is `None`, other errors propagate. */
  function ReadAvailableOnce(s: Stream, cap: nat): (res: (Result<Option<nat>, IoError>, Stream))
    ensures res.1.Pending() == [] && res.1.input == s.input
    ensures res.1.Backlog() == s.Backlog()
    ensures var (answer, rest) := InnerRead(s.Script(), cap);
      && res.1.Script() == rest
      && (answer.Ok? ==> res.0 == Ok(Some(|answer.value|))
                          && res.1.Available() == s.Available() + s.Pending() + answer.value)
      && (answer.Err? && answer.error.kind == WouldBlock ==> res.0 == Ok(None))
      && (answer.Err? && answer.error.kind != WouldBlock ==> res.0 == Err(answer.error))
      && (answer.Err? ==> res.1.Available() == s.Available() + s.Pending())
    ensures res.0.Ok? && res.0.value.Some? ==> res.0.value.value <= cap
  {
    var s1 := FlushInBuffer(s);
    var (answer, s2) := TryReadInner(s1, cap);
    match answer
    case Ok(bytes) =>
      if |bytes| == 0 then (Ok(Some(0)), s2)
      else (Ok(Some(|bytes|)), KeepInBuffer(s2, bytes))
    case Err(err) =>
      if err.kind == WouldBlock then (Ok(None), s2) else (Err(err), s2)
  }

  /** `Stream::read_available`: flush, then pull 248-byte chunks into the
      buffer until the inner reader reports end of file (true), WouldBlock
      (false) or another error (propagated). The result agrees with the
      chunk-size-free reference `Drain`. */
  method ReadAvailable(s: Stream) returns (r: Result<bool, IoError>, s': Stream)
    ensures s'.Pending() == [] && s'.input == s.input
    ensures s'.Available() == s.Available() + s.Pending() + Drain(s.Script()).data
    ensures s'.Script() == Drain(s.Script()).rest
    ensures r == Ok(true) <==> Drain(s.Script()).stop == AtEof
    ensures r == Ok(false) <==> Drain(s.Script()).stop == WouldBlockStop
    ensures r.Err? <==> Drain(s.Script()).stop.FailedStop?
    ensures r.Err? ==> r.error == Drain(s.Script()).stop.err
  {
    ghost var d := Drain(s.Script());
    s' := FlushInBuffer(s);
    while true
      invariant s'.Pending() == [] && s'.input == s.input
      invariant s'.Available() + Drain(s'.Script()).data == s.Available() + s.Pending() + d.data
      invariant Drain(s'.Script()).stop == d.stop && Drain(s'.Script()).rest == d.rest
      decreases |Flat(s'.Script())|
    {
      DrainAfterRead(s'.Script(), ChunkSize);
      var (answer, s2) := TryReadInner(s', ChunkSize);
      match answer {
        case Ok(bytes) =>
          if |bytes| == 0 {
            s' := s2;
            return Ok(true), s';
          }
          s' := KeepInBuffer(s2, bytes);
        case Err(err) =>
          s' := s2;
          if err.kind == WouldBlock {
            return Ok(false), s';
          }
          return Err(err), s';
      }
    }
  }

  /** Reading everything available only moves bytes from the inner reader
      into the look-aside buffer. */
  lemma DrainKeepsBacklog(s: Stream, s': Stream)
    requires s'.Pending() == []
    requires s'.Available() == s.Available() + s.Pending() + Drain(s.Script()).data
    requires s'.Script() == Drain(s.Script()).rest
    ensures s'.Backlog() == s.Backlog()
  {
    var d := Drain(s.Script());
    calc {
      s'.Backlog();
      (s.Available() + s.Pending() + d.data) + [] + Flat(d.rest);
      { assert (s.Available() + s.Pending() + d.data) + [] == s.Available() + s.Pending() + d.data; }
      (s.Available() + s.Pending()) + (d.data + Flat(d.rest));
      s.Backlog();
    }
  }

  /** `Read for Stream`: reads go through the `BufReader`. */
  function Read(s: Stream, cap: nat): (res: (Result<seq<u8>, IoError>, Stream))
    ensures res.0.Ok? ==> |res.0.value| <= cap && res.0.value + res.1.Delivery() == s.Delivery()
    ensures res.0.Err? ==> res.1.Delivery() == s.Delivery()
    ensures res.1.input == s.input
  {
    var (result, output') := BufRead(s.output, cap);
    (result, s.(output := output'))
  }

  /** `Stream::try_read`; switching the descriptor's blocking mode around
      the read is not modelled. */
  function TryRead(s: Stream, cap: nat): (res: (Result<seq<u8>, IoError>, Stream))
    ensures res.0.Ok? ==> |res.0.value| <= cap && res.0.value + res.1.Delivery() == s.Delivery()
    ensures res.0.Err? ==> res.1.Delivery() == s.Delivery()
    ensures res.1.input == s.input
  {
    Read(s, cap)
  }

  /** The arms of `Stream::is_empty` on the answer of its read. */
  function EmptinessOf(answer: Result<nat, IoError>): (r: Result<bool, IoError>)
    ensures r == Ok(true) <==> answer == Ok(0) || (answer.Err? && answer.error.kind == WouldBlock)
    ensures r == Ok(false) <==> answer.Ok? && answer.value > 0
    ensures r.Err? <==> answer.Err? && answer.error.kind != WouldBlock
  {
    match answer
    case Ok(n) => Ok(n == 0)
    case Err(err) => if err.kind == WouldBlock then Ok(true) else Err(err)
  }

  /** `Stream::is_empty` as written: it reads into an empty array, and a
      read never returns more bytes than its destination holds. */
  function IsEmptyAsWritten(s: Stream): (res: (Result<bool, IoError>, Stream))
    ensures res.0 != Ok(false)
    ensures res.1.Delivery() == s.Delivery()
  {
    var (answer, s') := TryRead(s, 0);
    (EmptinessOf(if answer.Ok? then Ok(|answer.value|) else Err(answer.error)), s')
  }

  /** A byte waiting in the look-aside buffer, yet the stream as written
      reports itself empty. */
  lemma IsEmptyAsWrittenMissesData()
    ensures var s := Stream(Writer([], None), BufReader([], ReaderWithBuffer([], [0x61])));
      |s.Delivery()| > 0 && IsEmptyAsWritten(s).0 == Ok(true)
  {
  }

  /** Bytes can be had from the stream right now, without waiting. */
  predicate HasDataNow(s: Stream) {
    || |s.Pending()| > 0
    || |s.Available()| > 0
    || (|s.Script()| > 0 && s.Script()[0].Data? && |s.Script()[0].bytes| > 0)
  }

  /** The evidently intended `is_empty`: buffered bytes answer at once;
      otherwise one byte is read from the inner reader and, if one came,
      kept in the look-aside buffer so that nothing is lost. */
  function IsEmpty(s: Stream): (res: (Result<bool, IoError>, Stream))
    ensures res.0 == Ok(false) <==> HasDataNow(s)
    ensures res.0 == Ok(true) ==> !HasDataNow(s)
    ensures res.1.Delivery() == s.Delivery() && res.1.input == s.input
  {
    if |s.Pending()| > 0 || |s.Available()| > 0 then (Ok(false), s)
    else
      var (answer, s') := TryReadInner(s, 1);
      match answer
      case Ok(bytes) =>
        if |bytes| == 0 then (Ok(true), s') else (Ok(false), KeepInBuffer(s', bytes))
      case Err(err) =>
        if err.kind == WouldBlock then (Ok(true), s') else (Err(err), s')
  }

  /** `Stream::fill_buf`. */
  function StreamFillBuf(s: Stream): (res: (Result<seq<u8>, IoError>, Stream))
    ensures res.1.Delivery() == s.Delivery() && res.1.input == s.input
    ensures res.0.Ok? ==> HasPrefix(s.Delivery(), res.0.value)
  {
    var (result, output') := FillBuf(s.output);
    (result, s.(output := output'))
  }

  /** `Stream::consume`. */
  function StreamConsume(s: Stream, amt: nat): (s': Stream)
    ensures s'.output.reader == s.output.reader && s'.input == s.input
    ensures s'.Pending() == s.Pending()[Min(amt, |s.Pending()|)..]
  {
    s.(output := ConsumeBuf(s.output, amt))
  }

  /** What `fill_buf` returns is the read-ahead it leaves behind; a failed
      fill other than WouldBlock has used up one answer of the script. */
  lemma StreamFillBufFacts(s: Stream)
    ensures var (result, s') := StreamFillBuf(s);
      && (result.Ok? ==> result.value == s'.Pending())
      && (result.Err? && result.error.kind != WouldBlock ==> |s'.Script()| < |s.Script()|)
  {
    if |s.Pending()| == 0 && |s.Available()| == 0 {
      InnerReadErrorConsumes(s.Script(), BufReaderCapacity);
    }
  }

  /** `consume` takes the bytes it drops from the front of the delivery. */
  lemma StreamConsumeDelivery(s: Stream, amt: nat)
    ensures s.Pending()[..Min(amt, |s.Pending()|)] + StreamConsume(s, amt).Delivery() == s.Delivery()
  {
    SplitInFront(s.Pending(), Min(amt, |s.Pending()|), s.output.reader.Content());
  }
}
