# expectrl core in Dafny

A model of the byte-handling core of expectrl, a Rust library that drives
a child process through a pseudo terminal and waits for patterns in its
output. The model covers:

- **the stream** (`src/stream.rs`). The look-aside buffer of
  `ReaderWithBuffer` sits in front of the child's output. std's `BufReader`
  sits in front of that. The model covers `read_available`,
  `read_available_once`, `flush_in_buffer`, `consume_from_buffer`,
  `keep_in_buffer`, `is_empty`, and the `Read`, `BufRead` and `Write` impls.
  It also covers the async `poll_read` of `ReaderWithBuffer`.
- **the session** (`src/session.rs`). `expect` shows a needle one more byte
  per round. `check` and `is_matched` show it everything available at once.
  The model also covers `send`, `send_line` on unix and on windows,
  `send_control` and `set_expect_timeout`.
- **the logging wrapper** (`src/log.rs`). Every send, write and successful
  read is logged as one line `<target> <Debug of the bytes>`. The wrapper
  also has its own `read_until` and `read_line`, which run std's loop over
  the session's `fill_buf`/`consume`. The two unit tests of the wrapper are
  proved for every plain line of text, not just their "Hello World".
- **the error type** (`src/error.rs`): its `Display` text and its `From`
  conversions.

Modules:

- `Base` holds `u8`, `Option`, `Result`, `Min` and `Max`.
- `Errors` holds the error type and a stand-in for `std::io::Error`, reduced
  to its kind and its text.
- `Utf8` holds `str::as_bytes` and `std::str::from_utf8`, following the
  well-formed sequences of RFC 3629, section 4.
- `ScriptedIo` holds the child itself:
  - its output is a script of read answers (data, end of file, WouldBlock,
    error);
  - its input is a writer that records what it accepts.
- `Streams`, `Sessions` and `Logs` follow the three source files.

Three views of a stream make the contracts readable:

- `Delivery` is the order in which `Read` hands bytes out: the read-ahead,
  then the look-aside buffer, then the script.
- `Backlog` is the order the look-aside operations use: the look-aside
  buffer, then the read-ahead, then the script.
- `Drain` is a reference definition of "everything readable right now". It
  does not depend on chunk sizes. `read_available` is proved to agree with
  it.
- `ReadToEnd` is a reference definition of "everything the child will
  ever give" to a reader that reads again after some errors: `expect`
  waits out WouldBlock, std's `read_until` retries Interrupted. It says
  where that output stops: end of file, a failed read, or (for `expect`)
  still waiting when the script runs out.

`expect` is a method over a sequence of clock readings, one per round. The
wall clock itself is not modelled.

The model's contracts say the following about `expect`:

- it only ever shows the needle a growing prefix of the backlog;
- the needle matched none of the shorter prefixes;
- a match consumes exactly the bytes up to the rightmost match end;
- it reads at most one byte beyond what it has checked;
- it makes progress: after `n` rounds without a result the needle has
  seen `n` bytes, or every byte that was ready without waiting;
- it is live: every round without a result shows one byte more or uses
  up one of the child's WouldBlock answers, unless the child has given
  every byte it will and stays quiet. A wait still running after `n`
  rounds has therefore shown at least `n - w` bytes, where `w` counts the
  WouldBlock answers in the child's script, or everything the child will
  give;
- end of file is reported only when the child has nothing more to give,
  and a failed read only where the child's output ends in that error;
- end of file without a match always ends the wait with `Eof`, and the
  timeout ends it only in a round that met neither a match nor end of
  file, because the source tests `eof` before the clock.

Each round's outcome is fixed by the one-byte read's answer, the needle's
answer and the clock reading, in the order the source tests them
(`Round`). How many rounds a wait takes is bounded by the liveness clauses
but not fixed in every case (see "Left out").

Two methods contrast the two strategies, as the source's documentation does:

- on output "123" with a `\d+` needle, `expect` can only return "1"
  (`LazyDigits`);
- `check` on the same output returns "123" (`GreedyDigits`).

Two more show the liveness clauses at work:

- a child that closed without output makes `expect` fail with `Eof`,
  whatever the clock reads (`ClosedChildEof`);
- a child that is quiet once and then prints "1" is matched within two
  rounds, as long as the clock stays within the timeout
  (`QuietThenDigit`).

The `Write`, `Read` and `BufRead` impls of `Session`
(src/session.rs:632-662) only forward to the stream. The model calls the
stream members for them directly.

## Model

| member | source | states |
|---|---|---|
| Errors.Display | src/error.rs:21-35 | Every error displays as a non-empty text. |
| Errors.ClassifyDisplay | src/error.rs:21-35 | Each variant has its own format arm: the displayed text alone tells which variant printed it. |
| Errors.OtherMessageRoundTrip | src/error.rs:60-64 | `From<String>` keeps the message verbatim: it reads back from the displayed "Error <message>". |
| Errors.FromConversionsFaithful | src/error.rs:40-44 | `From<io::Error>` always gives `IO` wrapping that very error (injective) and never equals a `From<String>` result. |
| Utf8.DecodeEncode | src/log.rs:49-50 | The bytes of any Rust string are valid UTF-8 and decode back to it, so sent text is always logged as quoted text. |
| Utf8.EncodeDecode | src/log.rs:49-50 | Bytes that `from_utf8` accepts are exactly the encoding of the text it returns. |
| ScriptedIo.Write | src/stream.rs:188-191 | A write either takes every byte and reports their count, or fails and changes nothing. |
| ScriptedIo.WriteVectored | src/stream.rs:197-199 | A vectored write sends the buffers one after the other, or fails and changes nothing. |
| ScriptedIo.ReadToEnd | src/session.rs:162-179 | Reference for reading the child again and again, as the `expect` loop does: every byte it gives, in order, up to where it stops. It never stops on an error that the reader waits out, and it is still waiting at the end only for a reader that waits out WouldBlock. |
| ScriptedIo.ReadToEndAfterRead | src/session.rs:178-178 | A read with room for a byte that returns data moves that data to the front of what reading to the end yields. A retried error changes nothing. Ok(0) is end of file there, and any other error is where it stops, with nothing more. |
| ScriptedIo.PatienceMeetsEof | src/session.rs:162-179 | A child that is quiet once and then closes: "everything available now" stops at the WouldBlock, while the `expect` loop goes round again and meets end of file. A reader that retries only Interrupted fails on the WouldBlock. |
| ScriptedIo.InnerReadUsesWouldBlock | src/stream.rs:151-163 | A read never adds WouldBlock answers to the child's script, and one that answers WouldBlock while the script is not exhausted uses one up. |
| ScriptedIo.WriteAll | src/session.rs:356-358 | `write_all` succeeds exactly when the writer works or the buffer is empty, and then appends the buffer. |
| Streams.KeepInBufferOf | src/stream.rs:421-424 | The look-aside buffer keeps its bytes and gains `v` at its end; the inner reader is untouched. |
| Streams.ReadBuffered | src/stream.rs:443-455 | With buffered bytes, the first `min(cap, len)` are handed out and the inner reader is untouched; otherwise the inner reader answers. No byte is lost or reordered. |
| Streams.PollReadAsWritten | src/stream.rs:467-490 | The async read as written never changes the length of the caller's buffer. |
| Streams.PollReadAsWrittenPanics | src/stream.rs:467-490 | Three buffered bytes and a four-byte destination make the re-slice panic. |
| Streams.PollReadAsWrittenMisplaces | src/stream.rs:467-490 | One buffered byte 7 and an inner 8, 9: three bytes are reported, but they read 7, 0, 8. |
| Streams.PollReadAsWrittenLosesBytes | src/stream.rs:467-490 | One buffered byte, a three-byte destination and a quiet inner reader: the answer is `Pending` and the byte is gone from the reader. The corrected read reports it. |
| Streams.PollRead | src/stream.rs:467-490 | Corrected: never panics; the first `k` bytes of the caller's buffer are the next `k` of the reader, the rest is untouched; buffered bytes are always reported; `Pending` only with an empty buffer. |
| Streams.ConsumeFromBuffer | src/stream.rs:169-171 | Exactly the first `n` look-aside bytes are dropped; the read-ahead and the inner reader are untouched. |
| Streams.KeepInBuffer | src/stream.rs:173-175 | The look-aside buffer gains `v` at its end; everything else is untouched. |
| Streams.FlushInBuffer | src/stream.rs:177-185 | The read-ahead empties into the end of the look-aside buffer; the backlog is unchanged. |
| Streams.FlushInBufferKeepsDeliveryOrder | src/stream.rs:177-185 | When one of the two buffers is empty, the flush keeps the order in which `Read` hands bytes out. |
| Streams.FlushInBufferReorders | src/stream.rs:177-185 | When both buffers hold bytes, the flush puts the read-ahead behind the look-aside bytes. |
| Streams.BothBuffersReachable | src/stream.rs:202-206 | A `Read` after more than 8 KiB were kept aside leaves bytes in both buffers. |
| Streams.TryReadInner | src/stream.rs:111-124 | Only the inner reader is read; both buffers are untouched. |
| Streams.ReadAvailableOnce | src/stream.rs:151-163 | The read-ahead is flushed. Then one inner read: data is kept and counted, Ok(0) is `Some(0)`, WouldBlock is `None`, other errors propagate. The backlog is unchanged. |
| Streams.ReadAvailable | src/stream.rs:135-149 | Equal to the reference `Drain`: every byte up to the first end of file, WouldBlock or error is moved behind the buffered ones, and the outcome is true, false or the error accordingly. |
| Streams.DrainKeepsBacklog | src/stream.rs:135-149 | Reading everything available moves bytes between buffers, never losing or reordering them. |
| Streams.Read | src/stream.rs:202-206 | At most `cap` bytes, taken in order from the front of the delivery; a failed read loses nothing. |
| Streams.TryRead | src/stream.rs:95-108 | The same as `Read`: at most `cap` bytes, in order from the front of the delivery. |
| Streams.EmptinessOf | src/stream.rs:127-132 | Ok(0) and WouldBlock mean empty, a positive count means not empty, other errors propagate; in both directions. |
| Streams.IsEmptyAsWritten | src/stream.rs:126-133 | As written, `is_empty` never reports `Ok(false)`. |
| Streams.IsEmptyAsWrittenMissesData | src/stream.rs:126-133 | A stream with a byte in the look-aside buffer is reported empty. |
| Streams.IsEmpty | src/stream.rs:126-133 | Corrected: `Ok(false)` exactly when bytes can be had right now; no byte is lost. |
| Streams.StreamFillBuf | src/stream.rs:209-211 | `fill_buf` returns a prefix of the delivery and changes no delivered byte. |
| Streams.StreamFillBufFacts | src/stream.rs:209-211 | What `fill_buf` returns is the read-ahead it leaves; a failure other than WouldBlock uses up one answer of the child. |
| Streams.StreamConsume | src/stream.rs:213-215 | `consume` drops up to `amt` read-ahead bytes and touches nothing else. |
| Streams.StreamConsumeDelivery | src/stream.rs:213-215 | The bytes `consume` drops come from the front of the delivery. |
| Sessions.RightMostIndex | src/session.rs:193-193 | The end of the rightmost match: no match ends later, and one ends there. |
| Sessions.SetExpectTimeout | src/session.rs:346-348 | The timeout is replaced; the stream is untouched. |
| Sessions.Advance | src/session.rs:163-187 | Reads one byte only when every buffered byte was checked. It reports end of file exactly when that read returned 0 bytes, and an error exactly when the read failed with something other than WouldBlock. The checked prefix grows by one whenever a byte is buffered or ready, and stays only when none is. The backlog is unchanged. Otherwise, what the child will eventually give is unchanged. After end of file or an error, the child's output ends there. A call that goes on shows one byte more, uses up one of the child's WouldBlock answers, or finds that the child has given every byte it will and stays quiet. No call adds WouldBlock answers. |
| Sessions.EventualAfterOneByte | src/session.rs:178-178 | A one-byte read that neither meets end of file nor fails leaves unchanged what the child will eventually give, and how that ends. |
| Sessions.EventualEndsAtOneByte | src/session.rs:178-178 | A one-byte read that returns 0 means the child's output ends at end of file after the buffered bytes. A failed read means it ends in that error. |
| Sessions.ReadyAfterOneByte | src/session.rs:178-178 | A one-byte read takes a byte whenever one is ready, and leaves no fewer bytes ready. |
| Sessions.Verdict | src/session.rs:189-201 | No verdict exactly when the needle found nothing before end of file. A match consumes exactly the bytes up to the rightmost end and returns them. A needle error or end of file leaves the stream alone. |
| Sessions.Round | src/session.rs:162-207 | One pass of the loop. Its outcome is fixed in the source's order. A failed one-byte read gives its `IO` error. Otherwise the needle's error. Otherwise a match, with exactly the bytes up to its end consumed. Otherwise `Eof` when the read returned 0. Otherwise `ExpectTimeout` when the reading is past the timeout. Otherwise another round, with nothing consumed and the child's eventual output unchanged. `eof` holds exactly when the read returned 0, and then nothing more is to come. A round that neither met end of file nor failed shows one byte more, uses up a WouldBlock answer, or finds the child has given everything and stays quiet. |
| Sessions.Decide | src/session.rs:189-207 | The needle's verdict, then the timeout. End of file with no match gives `Eof`, whatever the clock reads. Without a result: the stream is untouched, there was no end of file, the needle matched nothing and the timeout has not passed. Otherwise: a match with exactly its bytes consumed, the needle's error, end of file without a match, or the timeout passed with neither a match nor end of file. |
| Sessions.DecidedInOrder | src/session.rs:178-207 | When the read did not fail, what a round promises fixes its outcome: the needle's error, then a match, then end of file, then the timeout, otherwise another round. |
| Sessions.PacedStep | src/session.rs:162-187 | A round that goes on keeps the rounds so far paid for by bytes shown and WouldBlock answers used up, or by the child having given everything while it stays quiet. |
| Sessions.PacedEnd | src/session.rs:178-201 | The last round of a wait on a child that ends at end of file, when it did not meet it, also showed a byte or used up a WouldBlock answer. |
| Sessions.WaitRound | src/session.rs:162-207 | One round of a wait: either the head of the next round, with every invariant of the wait kept, or the end of the wait with everything `expect` promises about it. |
| Sessions.Expect | src/session.rs:158-209 | Every match is on a prefix after every shorter prefix failed. The matched bytes are consumed exactly. At most one byte is read past the checked prefix beyond what was buffered. After `n` rounds without a result, the needle has seen at least `n` bytes, or every byte ready without waiting. A wait still running after `n` rounds has shown at least `n - w` bytes, where `w` counts the WouldBlock answers in the child's script, or every byte the child will give while it stays quiet. A wait on a child whose output ends at end of file that stops without meeting it stopped within as many rounds. End of file is reported only when the child had nothing more. End of file without a match always gives `Eof`. A failed read is reported only where the child's output ends in that error. The timeout is reported only in a round with neither a match nor end of file. Otherwise the error is the needle's. |
| Sessions.LazyDigits | src/session.rs:65-69 | With "123" to read and a `\d+` needle, `expect` returns exactly "1" with the one match 0..1. |
| Sessions.FirstDigitMatch | src/session.rs:65-69 | On "123" the `\d+` needle first matches on the first byte alone. |
| Sessions.ClosedChildEof | src/session.rs:178-201 | A child that closed without output: for any clock readings, `expect` fails with `Eof`, never with the timeout. |
| Sessions.QuietThenDigit | src/session.rs:162-196 | A child that answers WouldBlock once and then prints "1": with two or more readings within the timeout, `expect` with a `\d+` needle returns exactly "1" with the one match 0..1. |
| Sessions.DigitAfterWaits | src/session.rs:162-196 | Any child that will give only "1", after at most one WouldBlock answer, and then stays quiet is matched by the `\d+` needle within two rounds inside the timeout. |
| Sessions.Check | src/session.rs:226-243 | Reads everything available and shows all of it to the needle; a match consumes up to the rightmost end; otherwise `Eof` after end of file, or an empty `Found`; read and needle errors propagate. |
| Sessions.GreedyDigits | src/session.rs:218-223 | `check` on "123" with a `\d+` needle returns "123". |
| Sessions.IsMatched | src/session.rs:308-322 | Like `check` but never consumes: true on a match, `Eof` after end of file, false otherwise. |
| Sessions.Send | src/session.rs:356-358 | The text's UTF-8 bytes are sent in full, or the error is reported and nothing is sent. |
| Sessions.SendLine | src/session.rs:361-393 | The text and the platform's line ending are sent, or the error is reported and nothing is sent. |
| Sessions.SendLineReadBack | src/session.rs:361-393 | What a successful `send_line` sent ends in the line ending and decodes back to the text. |
| Sessions.SendControl | src/session.rs:413-418 | An unparsable code is an error and sends nothing; otherwise exactly the code's byte is sent or the error is reported. |
| Logs.Wrap | src/log.rs:21-38 | The spawned session is wrapped without a logger. |
| Logs.SetLog | src/log.rs:43-45 | The writer replaces any earlier one; the session is untouched. |
| Logs.Log | src/log.rs:47-54 | The line is appended to the writer, if there is one; the session is untouched. |
| Logs.LineRoundTrip | src/log.rs:47-54 | Each log line reads back to exactly the bytes it was written for, whether rendered as text or as a byte list. |
| Logs.UnescapeEscape | src/log.rs:50-50 | Debug text of a string reads back to the string. |
| Logs.NoBreakSpaceEscaped | src/log.rs:50-50 | In the Debug text of a logged string the no-break space U+00A0 is written as `\u{a0}`; the plain space and U+00A1 are written as they are. |
| Logs.ByteListRoundTrip | src/log.rs:51-51 | Debug text of a byte slice reads back to the bytes. |
| Logs.LineOfText | src/log.rs:49-50 | The bytes of a string are always logged as the quoted string. |
| Logs.Send | src/log.rs:59-62 | Logs `send "<text>"`, then sends exactly as the session does. |
| Logs.SendLine | src/log.rs:64-67 | Logs `send_line "<text>"` without the line ending, then sends the line. |
| Logs.Write | src/log.rs:99-102 | Logs the bytes even when the write then fails; the write is all or nothing. |
| Logs.Flush | src/log.rs:104-106 | Passed through: succeeds exactly when the writer works. |
| Logs.Read | src/log.rs:110-118 | A successful read logs exactly the bytes it returned; a failed read logs nothing and loses nothing. |
| Logs.FillBuf | src/log.rs:123-125 | Not logged; returns a prefix of the delivery and loses nothing. |
| Logs.Consume | src/log.rs:127-129 | Not logged; drops bytes from the front of the delivery. |
| Logs.SessionReadUntil | src/log.rs:132-132 | std's `read_until` on the session. It appends bytes in order from the front of the delivery, up to and including the first delimiter. It stops only at the delimiter, or at end of file having taken every byte before it. It fails only where the child's output fails, having taken every byte before that. The count is right, and an error is never Interrupted. |
| Logs.FillToEnd | src/log.rs:123-125 | A `fill_buf` that returns bytes or Interrupted leaves unchanged what `read_until` would take to the end. An empty fill means end of file with nothing left. Any other error means the child's output ends in it. |
| Logs.ReadUntilAsWritten | src/log.rs:131-135 | As written: logs the first `size` bytes of the caller's buffer, whatever they are. |
| Logs.ReadUntilAsWrittenLogsOldBytes | src/log.rs:131-135 | Buffer "ab" and a child printing "c\n": the as-written wrapper logs `read "ab"`, the corrected one `read "c\n"`. |
| Logs.ReadUntilAsWrittenAgreesOnEmptyBuffer | src/log.rs:131-135 | With an empty buffer the as-written and corrected `read_until` agree. |
| Logs.ReadUntil | src/log.rs:131-135 | Corrected: the buffer gains the next bytes of the delivery up to and including the first delimiter, and exactly those are logged. It stops only at the delimiter or at end of file, and fails only where the child's output fails. Errors log nothing. |
| Logs.SessionReadLine | src/log.rs:139-139 | std's `read_line`. The bytes taken end at the first line feed, or at end of file with every byte before it taken. If they are UTF-8 the string grows by them; otherwise the string is unchanged and an error is reported. A failure is the child's, where its output fails, or InvalidData for a whole line that is not UTF-8. |
| Logs.ReadLine | src/log.rs:137-142 | The string grows by the next bytes of the delivery, and exactly those bytes are logged; errors log nothing. |
| Logs.LogReadLine | src/log.rs:138-141 | The bytes cut out of the string at its old length are the ones the inner `read_line` appended; those are logged. |
| Logs.LogOfSendLineAndRead | src/log.rs:205-225 | For any plain line, `send_line` to an echoing child and one read leave exactly the two expected log lines. |
| Logs.LogOfSendLineAndReadLine | src/log.rs:230-248 | For any plain line, `send_line` and `read_line` give the echoed line and exactly the two expected log lines. |
| Logs.HelloWorldIsPlain | src/log.rs:211-211 | The tests' "Hello World" is plain text, so the two lemmas above cover the tests. |

## Left out

- Spawning the process (`PtyProcess`, `conpty`, `spawn_cmd`): `Sessions.Spawned` and `Logs.Wrap` start from a stream that already exists.
- The process's other operations (`send_eof`, `send_intr`, `interact`, waiting, killing): they do not touch the buffers.
- `Deref`/`DerefMut` of `SessionWithLog`: the model reaches the inner session directly.
- Switching the descriptor between blocking and non-blocking mode in `try_read` and `try_read_inner`: the scripted child already answers without blocking.
- The wall clock of `expect`: it is replaced by a sequence of readings, one per round. Running out of readings ends the model's wait.
- The async versions of the session and of the logging wrapper (`stream/async_stream.rs`, the async `send`/`send_line`, `poll_write`, `poll_read` of the wrapper): they repeat the sync logic. `ReaderWithBuffer::poll_read` is modelled.
- Needle implementations and `Found` (`needle.rs`, `found.rs`) are not part of this model: a needle is any function of the bytes and the end-of-file flag that reports matches within the bytes.
- Control-code parsing (`control_code.rs`) is not part of this model: `SendControl` takes its outcome.
- Partial and interrupted writes: the writer takes a whole buffer or fails.
- A child that blocks a read: the scripted child never blocks, and once its script has run out it answers WouldBlock, as a quiet child does.
- std's `BufReader` beyond what the stream relies on: the model has its 8 KiB capacity, its bypass for large reads, `fill_buf` and `consume`.
- The Unicode printable table of Rust's Debug for strings: only its Latin-1 part is modelled (the controls, the no-break space U+00A0 and the soft hyphen U+00AD are escaped). Characters above U+00FF are treated as printable, including the other space separators and format characters Rust escapes. The grapheme-extend escape is not modelled.
- Errors of the log writer: `log` discards them, so the writer accepts everything.
- Logs.LogOfSendLineAndRead: requires plain text of at most 254 characters. The child is a script that echoes the line with "\r\n", in place of `cat` on a terminal.
- Logs.LogOfSendLineAndReadLine: the same restrictions as the lemma above.
- Streams.PollReadAsWritten: its contract only fixes the length of the caller's buffer. What goes wrong is stated by the three lemmas named after it.
- Streams.FlushInBuffer: the model keeps the as-written order. `FlushInBufferReorders` and `BothBuffersReachable` show that delivery order is lost when both buffers hold bytes. No corrected flush is modelled, because `expect`, `check` and `is_matched` are stated against the as-written backlog.
- Sessions.Expect: when the first read of a wait meets end of file while std's `BufReader` still holds bytes, the flush moves them into view but the needle is shown only one of them before `Eof` is returned. `EofAccounted` states this case as the code behaves; it is not claimed that every byte was shown then.
- Sessions.Expect: its contract does not fix, in every case, the round in which a wait ends. `Round` fixes each round's outcome, and `Expect` bounds the rounds by the bytes shown and the child's WouldBlock answers. `ClosedChildEof` and `DigitAfterWaits` show that the bounds settle the outcome in those cases.
- The integration tests in `tests/log.rs`: they run a real `cat` and cover the same behaviour as the unit tests above.

## Findings

| source | as written | input that shows it | evidently intended | confidence | as-written member | corrected member |
|---|---|---|---|---|---|---|
| src/stream.rs:467-490 | After copying `n` buffered bytes, `buf.write` has advanced the slice, so `&mut buf[n..]` starts `2n` bytes in. A `Pending` inner reader drops the bytes already drained. | Three buffered bytes and a four-byte destination panic. One buffered 7 and an inner reader with 8, 9 report 3 bytes reading 7, 0, 8. One buffered byte, a three-byte destination and a quiet reader lose the byte. | The inner reader's bytes follow the copied ones, and copied bytes are reported even if the inner reader is not ready. | not executed | Streams.PollReadAsWritten, Streams.PollReadAsWrittenPanics, Streams.PollReadAsWrittenMisplaces, Streams.PollReadAsWrittenLosesBytes | Streams.PollRead |
| src/stream.rs:126-133 | `is_empty` reads into an empty array. A read never returns more bytes than its destination holds, so the answer is `Ok(0)` and "empty". | One byte waiting in the look-aside buffer: `Ok(true)`. | `Ok(false)` whenever bytes are ready. | not executed | Streams.IsEmptyAsWritten, Streams.IsEmptyAsWrittenMissesData | Streams.IsEmpty |
| src/log.rs:131-135 | The wrapper's `read_until` logs `buf[..size]`, the first `size` bytes of the caller's buffer. | Buffer "ab", child prints "c\n": `read "ab"` is logged. | Log the bytes this call appended, as `read_line` does. | not executed | Logs.ReadUntilAsWritten, Logs.ReadUntilAsWrittenLogsOldBytes | Logs.ReadUntil |
