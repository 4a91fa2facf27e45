/** The environment the stream layer talks to, made deterministic: the
    child's output is a script of read answers and its input is a writer
    that records what it accepts. Stands in for the pty file descriptor
    (or the conpty pipes) of the original. */
module ScriptedIo {
  import opened Base
  import opened Errors

  /** One answer the inner (unbuffered) reader gives to a `read` call. */
  datatype ReadEvent =
    | Data(bytes: seq<u8>)  // bytes are ready; an empty chunk reads as Ok(0)
    | Closed                // Ok(0): end of file
    | Blocked               // Err(WouldBlock): nothing ready yet
    | Failed(err: IoError)  // any error the descriptor reports

  /** Every byte the script will ever deliver, in order. */
  function Flat(script: seq<ReadEvent>): seq<u8> {
    if |script| == 0 then []
    else (if script[0].Data? then script[0].bytes else []) + Flat(script[1..])
  }

  lemma {:induction false} FlatAppend(a: seq<ReadEvent>, b: seq<ReadEvent>)
    ensures Flat(a + b) == Flat(a) + Flat(b)
  {
    if |a| == 0 {
      assert a + b == b;
    } else {
      assert (a + b)[1..] == a[1..] + b;
      FlatAppend(a[1..], b);
    }
  }

  /** One `read` of the inner reader into a destination of `cap` bytes:
      the bytes copied, or the error, and the script left over. Reading a
      chunk larger than the destination leaves its tail for the next read;
      a script that has run out answers WouldBlock, as a quiet child does. */
  function InnerRead(script: seq<ReadEvent>, cap: nat): (r: (Result<seq<u8>, IoError>, seq<ReadEvent>))
    ensures r.0.Ok? ==> |r.0.value| <= cap
    ensures r.0.Ok? ==> r.0.value + Flat(r.1) == Flat(script)
    ensures r.0.Err? ==> Flat(r.1) == Flat(script)
    ensures |r.1| <= |script|
  {
    if |script| == 0 then (Err(WouldBlockError), script)
    else match script[0]
      case Data(bytes) =>
        if |bytes| == 0 then (Ok([]), script[1..])
        else if cap == 0 then (Ok([]), script)
        else if |bytes| <= cap then (Ok(bytes), script[1..])
        else
          FlatAppend([Data(bytes[cap..])], script[1..]);
          assert bytes[..cap] + bytes[cap..] == bytes;
          (Ok(bytes[..cap]), [Data(bytes[cap..])] + script[1..])
      case Closed => (Ok([]), script[1..])
      case Blocked => (Err(WouldBlockError), script[1..])
      case Failed(err) => (Err(err), script[1..])
  }

  /** An error other than WouldBlock always uses up one answer of the
      script. */
  lemma InnerReadErrorConsumes(script: seq<ReadEvent>, cap: nat)
    ensures InnerRead(script, cap).0.Err? && InnerRead(script, cap).0.error.kind != WouldBlock ==>
      |InnerRead(script, cap).1| < |script|
  {
  }

  /** An answer of the script that reads as WouldBlock. */
  predicate Quiet(e: ReadEvent) {
    e.Blocked? || (e.Failed? && e.err.kind == WouldBlock)
  }

  /** How many WouldBlock answers the script holds: the reads a patient
      reader can spend without getting anything or reaching the end. */
  function WouldBlocks(script: seq<ReadEvent>): nat {
    if |script| == 0 then 0
    else (if Quiet(script[0]) then 1 else 0) + WouldBlocks(script[1..])
  }

  /** A read never adds WouldBlock answers, and one that answers
      WouldBlock from a script that is not exhausted uses one up. */
  lemma InnerReadUsesWouldBlock(script: seq<ReadEvent>, cap: nat)
    ensures WouldBlocks(InnerRead(script, cap).1) <= WouldBlocks(script)
    ensures var (answer, rest) := InnerRead(script, cap);
      answer.Err? && answer.error.kind == WouldBlock && |script| > 0 ==>
        WouldBlocks(rest) < WouldBlocks(script)
  {
  }

  /** Why a reader stopped being drained. */
  datatype Stop = AtEof | WouldBlockStop | FailedStop(err: IoError)

  datatype Drained = Drained(data: seq<u8>, stop: Stop, rest: seq<ReadEvent>)

  /** Reference definition of reading a script until it has nothing more
      to give right now: every byte up to the first end of file, WouldBlock
      or other error, independent of how large each read is. */
  function Drain(script: seq<ReadEvent>): (d: Drained)
    ensures d.data + Flat(d.rest) == Flat(script)
    ensures !d.stop.FailedStop? || d.stop.err.kind != WouldBlock
  {
    if |script| == 0 then Drained([], WouldBlockStop, [])
    else match script[0]
      case Data(bytes) =>
        if |bytes| == 0 then Drained([], AtEof, script[1..])
        else
          var d := Drain(script[1..]);
          Drained(bytes + d.data, d.stop, d.rest)
      case Closed => Drained([], AtEof, script[1..])
      case Blocked => Drained([], WouldBlockStop, script[1..])
      case Failed(err) =>
        if err.kind == WouldBlock then Drained([], WouldBlockStop, script[1..])
        else Drained([], FailedStop(err), script[1..])
  }

  /** A read with room for at least one byte that returns data moves
      those bytes out of the script without changing what a drain of the
      whole script yields; any other answer is where the drain stops. */
  lemma DrainAfterRead(script: seq<ReadEvent>, cap: nat)
    requires cap > 0
    ensures InnerRead(script, cap).0.Ok? && |InnerRead(script, cap).0.value| > 0 ==>
      Drain(script) == (var d := Drain(InnerRead(script, cap).1);
                        Drained(InnerRead(script, cap).0.value + d.data, d.stop, d.rest))
    ensures InnerRead(script, cap).0 == Ok([]) ==>
      Drain(script) == Drained([], AtEof, InnerRead(script, cap).1)
    ensures InnerRead(script, cap).0.Err? ==>
      Drain(script) == Drained([], if InnerRead(script, cap).0.error.kind == WouldBlock then WouldBlockStop
                                   else FailedStop(InnerRead(script, cap).0.error),
                               InnerRead(script, cap).1)
  {
    if |script| > 0 && script[0].Data? && cap < |script[0].bytes| {
      var bytes := script[0].bytes;
      var rest := [Data(bytes[cap..])] + script[1..];
      assert InnerRead(script, cap).1 == rest;
      assert rest[0] == Data(bytes[cap..]) && rest[1..] == script[1..];
      assert Drain(rest) == (var d := Drain(script[1..]); Drained(bytes[cap..] + d.data, d.stop, d.rest));
      assert bytes[..cap] + bytes[cap..] == bytes;
    }
  }

  /** Which error answers a reader waits out by reading again: `expect`
      goes round again after WouldBlock, std's `read_until` retries after
      Interrupted. */
  datatype Patience = WaitsOutWouldBlock | RetriesInterrupted

  predicate Retries(p: Patience, kind: ErrorKind) {
    match p
    case WaitsOutWouldBlock => kind == WouldBlock
    case RetriesInterrupted => kind == Interrupted
  }

  /** Reference definition of reading a script again and again until it
      ends: every byte up to the first end of file or the first error the
      reader does not retry. Retried answers are skipped; a script that
      runs out keeps answering WouldBlock, so a reader that waits those
      out is still waiting (`WouldBlockStop`) at its end. */
  function ReadToEnd(script: seq<ReadEvent>, p: Patience): (d: Drained)
    ensures d.data + Flat(d.rest) == Flat(script)
    ensures d.stop.FailedStop? ==> !Retries(p, d.stop.err.kind)
    ensures d.stop == WouldBlockStop ==> Retries(p, WouldBlock)
  {
    if |script| == 0 then
      if Retries(p, WouldBlock) then Drained([], WouldBlockStop, [])
      else Drained([], FailedStop(WouldBlockError), [])
    else
      var head := if script[0].Data? then script[0].bytes else [];
      assert Flat(script) == head + Flat(script[1..]);
      match script[0]
      case Data(bytes) =>
        if |bytes| == 0 then Drained([], AtEof, script[1..])
        else
          var d := ReadToEnd(script[1..], p);
          assert (bytes + d.data) + Flat(d.rest) == bytes + (d.data + Flat(d.rest));
          Drained(bytes + d.data, d.stop, d.rest)
      case Closed => Drained([], AtEof, script[1..])
      case Blocked =>
        if Retries(p, WouldBlock) then ReadToEnd(script[1..], p)
        else Drained([], FailedStop(WouldBlockError), script[1..])
      case Failed(err) =>
        if Retries(p, err.kind) then ReadToEnd(script[1..], p)
        else Drained([], FailedStop(err), script[1..])
  }

  /** A child that is quiet once and then closes: a drain stops at the
      WouldBlock, while a reader that waits it out meets end of file. */
  lemma PatienceMeetsEof()
    ensures Drain([Blocked, Closed]).stop == WouldBlockStop
    ensures ReadToEnd([Blocked, Closed], WaitsOutWouldBlock) == Drained([], AtEof, [])
    ensures ReadToEnd([Blocked, Closed], RetriesInterrupted).stop == FailedStop(WouldBlockError)
  {
  }

  /** One read with room for a byte at least moves what it returns out of
      the script without changing what reading to the end yields; a
      retried error changes nothing either; end of file and any other
      error are where reading to the end stops. */
  lemma ReadToEndAfterRead(script: seq<ReadEvent>, cap: nat, p: Patience)
    requires cap > 0
    ensures var (answer, rest) := InnerRead(script, cap);
      answer.Ok? && |answer.value| > 0 ==>
        ReadToEnd(script, p) == (var d := ReadToEnd(rest, p); Drained(answer.value + d.data, d.stop, d.rest))
    ensures var (answer, rest) := InnerRead(script, cap);
      answer == Ok([]) ==> ReadToEnd(script, p) == Drained([], AtEof, rest)
    ensures var (answer, rest) := InnerRead(script, cap);
      answer.Err? && Retries(p, answer.error.kind) ==> ReadToEnd(script, p) == ReadToEnd(rest, p)
    ensures var (answer, rest) := InnerRead(script, cap);
      answer.Err? && !Retries(p, answer.error.kind) ==>
        ReadToEnd(script, p).stop == FailedStop(answer.error) && ReadToEnd(script, p).data == []
  {
    if |script| > 0 && script[0].Data? && cap < |script[0].bytes| {
      ReadToEndSplitChunk(script, cap, p);
    }
  }

  /** A chunk larger than the read leaves its tail at the head of the
      script, where reading to the end picks it up again. */
  lemma ReadToEndSplitChunk(script: seq<ReadEvent>, cap: nat, p: Patience)
    requires 0 < cap && |script| > 0 && script[0].Data? && cap < |script[0].bytes|
    ensures var (answer, rest) := InnerRead(script, cap);
      ReadToEnd(script, p) == (var d := ReadToEnd(rest, p); Drained(answer.value + d.data, d.stop, d.rest))
  {
    var bytes := script[0].bytes;
    var rest := [Data(bytes[cap..])] + script[1..];
    var d := ReadToEnd(script[1..], p);
    assert InnerRead(script, cap) == (Ok(bytes[..cap]), rest);
    assert rest[0] == Data(bytes[cap..]) && rest[1..] == script[1..];
    assert ReadToEnd(rest, p) == Drained(bytes[cap..] + d.data, d.stop, d.rest);
    assert ReadToEnd(script, p) == Drained(bytes + d.data, d.stop, d.rest);
    SplitInFront(bytes, cap, d.data);
  }

  /** The child's input side. Writes are all-or-nothing: a writer without
      a fault accepts every byte, a faulty one refuses every write. */
  datatype Writer = Writer(sent: seq<u8>, fault: Option<IoError>)

  /** `Write::write`. */
  function Write(w: Writer, buf: seq<u8>): (r: (Result<nat, IoError>, Writer))
    ensures r.0.Ok? <==> w.fault.None?
    ensures r.0.Ok? ==> r.0.value == |buf| && r.1.sent == w.sent + buf
    ensures r.0.Err? ==> r.1 == w
  {
    if w.fault.Some? then (Err(w.fault.value), w) else (Ok(|buf|), w.(sent := w.sent + buf))
  }

  /** `Write::write_all`: an empty buffer is done without a write call. */
  function WriteAll(w: Writer, buf: seq<u8>): (r: (Result<(), IoError>, Writer))
    ensures r.0.Ok? <==> (w.fault.None? || |buf| == 0)
    ensures r.1.sent == w.sent + (if r.0.Ok? then buf else [])
    ensures r.1.fault == w.fault
  {
    if |buf| == 0 then (Ok(()), w)
    else
      var (res, w') := Write(w, buf);
      if res.Ok? then (Ok(()), w') else (Err(res.error), w')
  }

  /** The buffers of a vectored write, one after the other. */
  function Concat(bufs: seq<seq<u8>>): seq<u8> {
    if |bufs| == 0 then [] else bufs[0] + Concat(bufs[1..])
  }

  /** `Write::write_vectored` of a file descriptor (`writev`), which the
      writer again performs all-or-nothing. */
  function WriteVectored(w: Writer, bufs: seq<seq<u8>>): (r: (Result<nat, IoError>, Writer))
    ensures r.0.Ok? <==> w.fault.None?
    ensures r.0.Ok? ==> r.0.value == |Concat(bufs)| && r.1.sent == w.sent + Concat(bufs)
    ensures r.0.Err? ==> r.1 == w
  {
    Write(w, Concat(bufs))
  }

  /** `Write::flush`. */
  function Flush(w: Writer): Result<(), IoError> {
    if w.fault.Some? then Err(w.fault.value) else Ok(())
  }
}
