/** A session with a child process (src/session.rs): the pattern waiting
    of `expect`, the non-blocking `check` and `is_matched`, and the
    writing helpers. The process itself is not part of the model; only the
    stream to it and the expect timeout are. */
module Sessions {
  import opened Base
  import opened Errors
  import opened ScriptedIo
  import opened Streams
  import opened Utf8

  /** One match a needle reports: the byte range `start..end` of the data
      it was shown. */
  datatype Match = Match(start: nat, end: nat)

  /** A `Needle`: whatever the pattern is, it is shown a byte slice and
      whether end of file was seen, and answers with its matches (none
      when it does not match) or an error. */
  datatype Needle = Needle(check: (seq<u8>, bool) -> Result<seq<Match>, Error>)

  predicate MatchesWithin(matches: seq<Match>, len: nat) {
    forall i :: 0 <= i < |matches| ==> matches[i].start <= matches[i].end <= len
  }

  /** A needle reports matches inside the data it was shown; `expect` and
      `check` slice the data at the reported end and rely on this. */
  ghost predicate WellBehaved(needle: Needle) {
    forall data: seq<u8>, eof: bool ::
      needle.check(data, eof).Ok? ==> MatchesWithin(needle.check(data, eof).value, |data|)
  }

  /** `Found::right_most_index`: where the last of the matches ends. */
  function RightMostIndex(matches: seq<Match>): (end: nat)
    ensures forall i :: 0 <= i < |matches| ==> matches[i].end <= end
    ensures |matches| == 0 ==> end == 0
    ensures |matches| > 0 ==> exists i :: 0 <= i < |matches| && matches[i].end == end
  {
    if |matches| == 0 then 0
    else
      var rest := RightMostIndex(matches[1..]);
      if matches[0].end >= rest then matches[0].end else rest
  }

  lemma RightMostIndexWithin(matches: seq<Match>, len: nat)
    requires MatchesWithin(matches, len)
    ensures RightMostIndex(matches) <= len
  {
  }

  /** `Found`: the bytes up to the last match's end, and the matches. */
  datatype Found = Found(bytes: seq<u8>, matches: seq<Match>)

  /** `Session`; the expect timeout is in milliseconds. */
  datatype Session = Session(stream: Stream, expectTimeout: Option<nat>)

  /** The expect timeout a spawned session starts with (10 seconds). */
  const DefaultExpectTimeout: nat := 10000

  /** The session `spawn` builds around a fresh stream. */
  function Spawned(stream: Stream): Session {
    Session(stream, Some(DefaultExpectTimeout))
  }

  /** `Session::set_expect_timeout`. */
  function SetExpectTimeout(s: Session, timeout: Option<nat>): (s': Session)
    ensures s'.expectTimeout == timeout && s'.stream == s.stream
  {
    s.(expectTimeout := timeout)
  }

  /** What `expect` has come to once the clock readings given to it are
      used up: a result, or still waiting. */
  datatype Expectation = Finished(result: Result<Found, Error>) | StillWaiting

  /** The bytes that can be shown to a needle without waiting for the
      child: the buffered ones, then what the inner reader gives until it
      has nothing more right now. */
  function Ready(st: Stream): seq<u8> {
    st.Available() + st.Pending() + Drain(st.Script()).data
  }

  /** The bytes a patient reader is shown in the end, in backlog order:
      the buffered ones, then what the child gives until end of file or a
      failed read, WouldBlock answers waited out. */
  function Eventual(st: Stream): seq<u8> {
    st.Available() + st.Pending() + ReadToEnd(st.Script(), WaitsOutWouldBlock).data
  }

  /** How reading the child patiently ends: end of file, a failed read,
      or (`WouldBlockStop`) still waiting when the script runs out. */
  function EventualStop(st: Stream): Stop {
    ReadToEnd(st.Script(), WaitsOutWouldBlock).stop
  }

  /** The head of each `expect` round: once all buffered bytes have been
      shown to the needle, a one-byte read (true when it reported end of
      file); then one more buffered byte, if there is one, is taken into
      the checked prefix. */
  method Advance(st: Stream, checking: nat) returns (answer: Result<bool, IoError>, st': Stream, next: nat)
    requires checking <= |st.Available()|
    ensures st'.Backlog() == st.Backlog() && st'.input == st.input
    ensures checking <= next <= checking + 1 && next <= |st'.Available()|
    ensures st'.Available()[..next] == st.Backlog()[..next]
    ensures st' == st || (st'.Pending() == [] && checking == |st.Available()|
                          && |st'.Available()| <= |st.Available()| + |st.Pending()| + 1)
    ensures answer.Err? ==> answer.error.kind != WouldBlock && next == checking
    // an unchecked buffered byte is taken without reading
    ensures checking < |st.Available()| ==> answer == Ok(false) && st' == st && next == checking + 1
    // a byte there after the read is taken; the prefix stays only when nothing was ready
    ensures answer.Ok? && checking < |st'.Available()| ==> next == checking + 1
    ensures answer.Ok? ==> next == checking + 1 || (checking == |st.Available()| && |Ready(st)| == checking)
    // the answer is the inner reader's: end of file, a failure other than WouldBlock, or neither
    ensures answer == Ok(true) <==> checking == |st.Available()| && InnerRead(st.Script(), 1).0 == Ok([])
    ensures answer.Err? <==>
      && checking == |st.Available()| && InnerRead(st.Script(), 1).0.Err?
      && InnerRead(st.Script(), 1).0.error.kind != WouldBlock
    ensures answer.Err? ==> InnerRead(st.Script(), 1).0 == Err(answer.error)
    // what a patient reader is shown in the end is unchanged by going on
    ensures answer == Ok(false) ==>
      && Eventual(st') == Eventual(st) && EventualStop(st') == EventualStop(st)
      && |Ready(st')| >= |Ready(st)|
    // and is the buffered bytes alone when the read ends the wait
    ensures answer == Ok(true) ==>
      && EventualStop(st) == AtEof && Eventual(st) == st.Available() + st.Pending()
      && next == checking + (if |st.Pending()| > 0 then 1 else 0)
    ensures answer.Err? ==>
      EventualStop(st) == FailedStop(answer.error) && Eventual(st) == st.Available() + st.Pending()
    // a round that goes on has shown a byte more or waited out a WouldBlock answer
    ensures WouldBlocks(st'.Script()) <= WouldBlocks(st.Script())
    ensures answer == Ok(false) ==> Progressed(st, checking, st', next)
  {
    answer, st' := Ok(false), st;
    if checking == |st.Available()| {
      var (once, st1) := ReadAvailableOnce(st, 1);
      st' := st1;
      answer := if once.Err? then Err(once.error) else Ok(once.value == Some(0));
      InnerReadUsesWouldBlock(st.Script(), 1);
      EventualAfterOneByte(st);
      EventualEndsAtOneByte(st);
      ReadyAfterOneByte(st);
    }
    next := if answer.Ok? && checking < |st'.Available()| then checking + 1 else checking;
    AvailableLeadsBacklog(st', next);
  }

  /** What a round that goes on achieves: it shows one byte more, or uses
      up one of the child's WouldBlock answers, or finds that the child
      has given every byte it will and stays quiet. */
  predicate Progressed(st: Stream, checking: nat, st': Stream, next: nat) {
    || next == checking + 1
    || WouldBlocks(st'.Script()) < WouldBlocks(st.Script())
    || (next == checking == |Eventual(st)| && EventualStop(st) == WouldBlockStop)
  }

  /** The rounds a wait on `s0` went through without a result are paid
      for, one each, by the bytes shown and the WouldBlock answers used up,
      unless every byte the child will give has been shown and it stays
      quiet. */
  predicate Paced(s0: Stream, rounds: nat, st: Stream, checked: nat) {
    || rounds + WouldBlocks(st.Script()) <= checked + WouldBlocks(s0.Script())
    || (checked == |Eventual(s0)| && EventualStop(s0) == WouldBlockStop)
  }

  /** A round that goes on keeps the wait paced. */
  lemma PacedStep(s0: Stream, rounds: nat, st: Stream, checking: nat, st': Stream, next: nat)
    requires Paced(s0, rounds, st, checking) && Progressed(st, checking, st', next)
    requires WouldBlocks(st'.Script()) <= WouldBlocks(st.Script()) && checking <= next
    requires Eventual(st) == Eventual(s0) && EventualStop(st) == EventualStop(s0)
    requires next <= |Eventual(s0)|
    ensures Paced(s0, rounds + 1, st', next)
  {
  }

  /** The last round of a wait whose child ends at end of file, when it
      did not meet the end itself, also showed a byte more or used up a
      WouldBlock answer. */
  lemma PacedEnd(s0: Stream, rounds: nat, st: Stream, checking: nat, st': Stream, next: nat)
    requires Paced(s0, rounds, st, checking) && Progressed(st, checking, st', next)
    requires WouldBlocks(st'.Script()) <= WouldBlocks(st.Script()) && checking <= next
    requires EventualStop(st) == EventualStop(s0) == AtEof
    ensures rounds < next + WouldBlocks(s0.Script())
  {
  }

  /** What a one-byte read does to the bytes a patient reader is shown
      in the end: nothing, unless it ends the wait. */
  lemma EventualAfterOneByte(st: Stream)
    ensures var (once, st1) := ReadAvailableOnce(st, 1);
      once.Ok? && once.value != Some(0) ==>
        Eventual(st1) == Eventual(st) && EventualStop(st1) == EventualStop(st)
  {
    var (answer, rest) := InnerRead(st.Script(), 1);
    ReadToEndAfterRead(st.Script(), 1, WaitsOutWouldBlock);
    if answer.Ok? && |answer.value| > 0 {
      EventualKeptByRead(st, answer.value, ReadAvailableOnce(st, 1).1, rest);
    } else if answer.Err? && answer.error.kind == WouldBlock {
      EventualKeptByRead(st, [], ReadAvailableOnce(st, 1).1, rest);
    }
  }

  /** Moving bytes from the front of the child's patient output into the
      buffer leaves the whole unchanged. */
  lemma EventualKeptByRead(st: Stream, bytes: seq<u8>, st1: Stream, rest: seq<ReadEvent>)
    requires st1.Available() == st.Available() + st.Pending() + bytes && st1.Pending() == []
    requires st1.Script() == rest
    requires ReadToEnd(st.Script(), WaitsOutWouldBlock) ==
      (var d := ReadToEnd(rest, WaitsOutWouldBlock); Drained(bytes + d.data, d.stop, d.rest))
    ensures Eventual(st1) == Eventual(st) && EventualStop(st1) == EventualStop(st)
  {
    var d := ReadToEnd(rest, WaitsOutWouldBlock);
    var d0 := ReadToEnd(st.Script(), WaitsOutWouldBlock);
    assert d0.data == bytes + d.data && d0.stop == d.stop;
    var front := st.Available() + st.Pending();
    assert Eventual(st1) == (front + bytes) + [] + d.data;
    assert Eventual(st) == front + d0.data;
    Regroup(front, bytes, d.data);
  }

  /** A one-byte read that ends the wait finds nothing more to come. */
  lemma EventualEndsAtOneByte(st: Stream)
    ensures var once := ReadAvailableOnce(st, 1).0;
      once == Ok(Some(0)) ==> EventualStop(st) == AtEof && Eventual(st) == st.Available() + st.Pending()
    ensures var once := ReadAvailableOnce(st, 1).0;
      once.Err? ==> EventualStop(st) == FailedStop(once.error) && Eventual(st) == st.Available() + st.Pending()
  {
    ReadToEndAfterRead(st.Script(), 1, WaitsOutWouldBlock);
  }

  /** A one-byte read takes a byte whenever one is ready, and leaves no
      fewer bytes ready. */
  lemma ReadyAfterOneByte(st: Stream)
    ensures var (once, st1) := ReadAvailableOnce(st, 1);
      once.Ok? && once.value != Some(0) ==> |Ready(st1)| >= |Ready(st)|
    ensures |Drain(st.Script()).data| > 0 ==> ReadAvailableOnce(st, 1).0 == Ok(Some(1))
  {
    DrainAfterRead(st.Script(), 1);
  }

  /** None of the first `n` clock readings exceeds the timeout. */
  predicate WithinTimeout(clock: seq<nat>, timeout: Option<nat>, n: nat)
    requires n <= |clock|
  {
    forall k :: 0 <= k < n ==> timeout.None? || clock[k] <= timeout.value
  }

  /** One more reading within the timeout extends the run of them. */
  lemma WithinTimeoutStep(clock: seq<nat>, timeout: Option<nat>, n: nat)
    requires n < |clock| && WithinTimeout(clock, timeout, n)
    requires timeout.None? || clock[n] <= timeout.value
    ensures WithinTimeout(clock, timeout, n + 1)
  {
  }

  /** The needle, shown each of the first 1, 2, .., `n` bytes of `data`
      without end of file, matched none of them. */
  ghost predicate NoEarlierMatch(needle: Needle, data: seq<u8>, n: nat)
    requires n <= |data|
  {
    n == 0 || (needle.check(data[..n], false) == Ok([]) && NoEarlierMatch(needle, data, n - 1))
  }

  lemma {:induction false} NoEarlierMatchAll(needle: Needle, data: seq<u8>, n: nat)
    requires n <= |data|
    requires NoEarlierMatch(needle, data, n)
    ensures forall j :: 1 <= j <= n ==> needle.check(data[..j], false) == Ok([])
  {
    if n > 0 {
      NoEarlierMatchAll(needle, data, n - 1);
    }
  }

  /** One more prefix without a match extends the run of them. */
  lemma NoEarlierMatchStep(needle: Needle, data: seq<u8>, n: nat, next: nat)
    requires n <= next <= n + 1 && next <= |data|
    requires NoEarlierMatch(needle, data, n)
    requires next == 0 || needle.check(data[..next], false) == Ok([])
    ensures NoEarlierMatch(needle, data, next)
  {
  }

  /** The count of rounds bounds the checked prefix from below, as long
      as bytes are ready: a round either shows one more byte or finds
      every ready byte shown already. */
  lemma ProgressStep(rounds: nat, checking: nat, next: nat, ready0: nat, ready: nat, ready': nat)
    requires checking >= Min(rounds, ready0) && ready >= ready0 && ready' >= ready
    requires next == checking + 1 || next == checking == ready
    ensures next >= Min(rounds + 1, ready0) && ready' >= ready0
  {
  }

  /** The buffered bytes are the front of the backlog. */
  lemma AvailableLeadsBacklog(st: Stream, n: nat)
    requires n <= |st.Available()|
    ensures st.Available()[..n] == st.Backlog()[..n]
  {
    assert st.Backlog() == st.Available() + (st.Pending() + Flat(st.Script()));
  }

  /** What one answer of the needle to the first `checking` buffered
      bytes means for `expect`: None to keep waiting; otherwise the result,
      with the bytes up to the matches' end consumed on a match. */
  method Verdict(st: Stream, checking: nat, eof: bool, found: Result<seq<Match>, Error>)
    returns (v: Option<(Result<Found, Error>, Stream)>)
    requires checking <= |st.Available()|
    requires found.Ok? ==> MatchesWithin(found.value, checking)
    ensures v.None? <==> found == Ok([]) && !eof
    ensures v.Some? && v.value.0.Ok? ==>
      var f := v.value.0.value;
      && found == Ok(f.matches) && |f.matches| > 0
      && f.bytes == st.Available()[..RightMostIndex(f.matches)]
      && f.bytes + v.value.1.Backlog() == st.Backlog()
      && f.bytes + v.value.1.Available() == st.Available()
      && |f.bytes| + |v.value.1.Available()| == |st.Available()|
      && v.value.1.Pending() == st.Pending() && v.value.1.Script() == st.Script()
      && v.value.1.input == st.input
    ensures v.Some? && v.value.0.Err? ==>
      && v.value.1 == st
      && (found == Err(v.value.0.error) || (v.value.0.error == Eof && eof && found == Ok([])))
  {
    match found
    case Err(e) =>
      v := Some((Err(e), st));
    case Ok(matches) =>
      if |matches| > 0 {
        var end := RightMostIndex(matches);
        RightMostIndexWithin(matches, checking);
        v := Some((Ok(Found(st.Available()[..end], matches)), ConsumeFromBuffer(st, end)));
      } else if eof {
        v := Some((Err(Eof), st));
      } else {
        v := None;
      }
  }

  /** What a round that ends the wait with `res` promises. A match: at
      least one, found on the prefix the needle was shown, exactly the
      bytes up to its end consumed, and at most one byte read past the
      buffered ones. An error, with nothing consumed: the needle's own, a
      failed read (after which nothing more was to come), end of file with
      no match, or the timeout passed with neither a match nor end of
      file. */
  predicate RoundEnds(st: Stream, checking: nat, needle: Needle, elapsed: nat, timeout: Option<nat>,
                      res: Result<Found, Error>, st': Stream, next: nat, eof: bool)
  {
    && next <= |st.Backlog()|
    && (res.Ok? ==>
          var f := res.value;
          && |f.matches| > 0
          && needle.check(st.Backlog()[..next], eof) == Ok(f.matches)
          && RightMostIndex(f.matches) <= |st.Backlog()|
          && f.bytes == st.Backlog()[..RightMostIndex(f.matches)]
          && f.bytes + st'.Backlog() == st.Backlog()
          && |f.bytes| + |st'.Available()| <= Max(|st.Available()|, checking + 1 + |st.Pending()|))
    && (res.Err? ==>
          && st'.Backlog() == st.Backlog()
          && (|| needle.check(st.Backlog()[..next], eof) == Err(res.error)
              || (&& res.error.IO? && !eof && checking == |st.Available()|
                  && InnerRead(st.Script(), 1).0 == Err(res.error.io)
                  && EventualStop(st) == FailedStop(res.error.io) && Eventual(st) == st.Available() + st.Pending())
              || (res.error == Eof && eof && needle.check(st.Backlog()[..next], true) == Ok([]))
              || (&& res.error == ExpectTimeout && !eof && timeout.Some? && elapsed > timeout.value
                  && needle.check(st.Backlog()[..next], false) == Ok([]))))
  }

  /** What a wait on `s0` that ended with `res` in round `rounds` promises,
      the needle last shown the first `checked` bytes. A match: at least
      one, found on that prefix, exactly its bytes consumed, and (lazy
      reading) at most one byte read past the checked prefix beyond what
      was buffered. An error, with nothing consumed: the needle's own, a
      failed read where the child's output ends in that error, end of file
      with no match, or the timeout passed with neither a match nor end of
      file. */
  predicate WaitEnds(s0: Stream, needle: Needle, clock: seq<nat>, timeout: Option<nat>,
                     res: Result<Found, Error>, s1: Stream, checked: nat, eofSeen: bool, rounds: nat)
  {
    && rounds < |clock| && checked <= |s0.Backlog()|
    && (res.Ok? ==>
          var f := res.value;
          && |f.matches| > 0
          && needle.check(s0.Backlog()[..checked], eofSeen) == Ok(f.matches)
          && RightMostIndex(f.matches) <= |s0.Backlog()|
          && f.bytes == s0.Backlog()[..RightMostIndex(f.matches)]
          && f.bytes + s1.Backlog() == s0.Backlog()
          && |f.bytes| + |s1.Available()| <= Max(|s0.Available()| + |s0.Pending()|, checked) + 1)
    && (res.Err? ==>
          && s1.Backlog() == s0.Backlog()
          && (|| needle.check(s0.Backlog()[..checked], eofSeen) == Err(res.error)
              || (res.error.IO? && EventualStop(s0) == FailedStop(res.error.io))
              || (res.error == Eof && eofSeen && needle.check(s0.Backlog()[..checked], true) == Ok([]))
              || (&& res.error == ExpectTimeout && !eofSeen && timeout.Some? && clock[rounds] > timeout.value
                  && needle.check(s0.Backlog()[..checked], false) == Ok([]))))
  }

  /** End of file met by a wait on `s0` with the first `checked` bytes
      shown: the child had nothing more to give, and every byte it gave
      was shown, except when the first read already met end of file, which
      leaves the checked prefix one byte into the BufReader's. */
  predicate EofAccounted(s0: Stream, checked: nat) {
    && EventualStop(s0) == AtEof
    && (|| checked == |Eventual(s0)|
        || (&& |s0.Pending()| > 0 && checked == |s0.Available()| + 1
            && Eventual(s0) == s0.Available() + s0.Pending()))
  }

  /** What holds at the head of round `i` of a wait on `s0`, from the
      stream `st` with the first `checking` bytes of the backlog shown:
      nothing consumed, no match on a prefix shown, every round so far
      within the timeout, what the child will give unchanged, and the
      rounds so far paid for by progress. */
  ghost predicate Waiting(s0: Stream, needle: Needle, clock: seq<nat>, timeout: Option<nat>,
                          i: nat, st: Stream, checking: nat) {
    && i <= |clock|
    && st.input == s0.input && st.Backlog() == s0.Backlog()
    && checking <= |st.Available()| <= |st.Backlog()|
    && (st.Pending() == [] || st == s0)
    && (|st.Available()| <= |s0.Available()| + |s0.Pending()| + 1 || |st.Available()| <= checking + 1)
    && NoEarlierMatch(needle, s0.Backlog(), checking)
    && WithinTimeout(clock, timeout, i)
    && Eventual(st) == Eventual(s0) && EventualStop(st) == EventualStop(s0)
    && |Ready(st)| >= |Ready(s0)| && checking >= Min(i, |Ready(s0)|)
    && WouldBlocks(st.Script()) <= WouldBlocks(s0.Script())
    && Paced(s0, i, st, checking)
  }

  lemma WaitingStarts(s0: Stream, needle: Needle, clock: seq<nat>, timeout: Option<nat>)
    ensures Waiting(s0, needle, clock, timeout, 0, s0, 0)
  {
  }

  /** A round without a result leads to the head of the next one. */
  lemma WaitingGoesOn(s0: Stream, needle: Needle, clock: seq<nat>, timeout: Option<nat>,
                      i: nat, st: Stream, checking: nat, st': Stream, next: nat)
    requires i < |clock| && Waiting(s0, needle, clock, timeout, i, st, checking)
    requires st'.input == st.input && checking <= next <= checking + 1
    requires next == checking + 1 || (checking == |st.Available()| && |Ready(st)| == checking)
    requires GoesOn(st, checking, needle, clock[i], timeout, st', next)
    requires WouldBlocks(st'.Script()) <= WouldBlocks(st.Script()) && Progressed(st, checking, st', next)
    ensures Waiting(s0, needle, clock, timeout, i + 1, st', next)
  {
    WithinTimeoutStep(clock, timeout, i);
    NoEarlierMatchStep(needle, s0.Backlog(), checking, next);
    ProgressStep(i, checking, next, |Ready(s0)|, |Ready(st)|, |Ready(st')|);
    PacedStep(s0, i, st, checking, st', next);
  }

  /** A round that ends a wait ends it: what the round promises about the
      stream it started from carries over to the stream the wait started
      from. */
  lemma WaitEndsWithRound(s0: Stream, needle: Needle, clock: seq<nat>, timeout: Option<nat>,
                          st: Stream, checking: nat, i: nat, res: Result<Found, Error>,
                          st': Stream, next: nat, eof: bool)
    requires i < |clock| && Waiting(s0, needle, clock, timeout, i, st, checking)
    requires st'.input == st.input && checking <= next <= checking + 1
    requires eof ==>
      && EventualStop(st) == AtEof && Eventual(st) == st.Available() + st.Pending()
      && checking == |st.Available()| && next == checking + (if |st.Pending()| > 0 then 1 else 0)
    requires WouldBlocks(st'.Script()) <= WouldBlocks(st.Script())
    requires !eof && !EventualStop(st).FailedStop? ==> Progressed(st, checking, st', next)
    requires eof && needle.check(st.Backlog()[..next], true) == Ok([]) ==> res == Err(Eof)
    requires RoundEnds(st, checking, needle, clock[i], timeout, res, st', next, eof)
    ensures st'.input == s0.input && WithinTimeout(clock, timeout, i) && next >= Min(i, |Ready(s0)|)
    ensures next <= |s0.Backlog()|
    ensures eof && needle.check(s0.Backlog()[..next], true) == Ok([]) ==> res == Err(Eof)
    ensures forall j :: 1 <= j < next ==> needle.check(s0.Backlog()[..j], false) == Ok([])
    ensures WaitEnds(s0, needle, clock, timeout, res, st', next, eof, i)
    ensures eof ==> EofAccounted(s0, next)
    ensures !eof && EventualStop(s0) == AtEof ==> i < next + WouldBlocks(s0.Script())
  {
    NoEarlierMatchAll(needle, s0.Backlog(), checking);
    if !eof && EventualStop(s0) == AtEof {
      PacedEnd(s0, i, st, checking, st', next);
    }
  }

  /** Round `i` of a wait on `s0`: either the head of the next round, or
      the end of the wait with what it promises. */
  method WaitRound(s0: Stream, needle: Needle, clock: seq<nat>, timeout: Option<nat>,
                   i: nat, st: Stream, checking: nat)
    returns (r: Option<Result<Found, Error>>, st': Stream, next: nat, eof: bool)
    requires WellBehaved(needle) && i < |clock| && Waiting(s0, needle, clock, timeout, i, st, checking)
    ensures r.None? ==> Waiting(s0, needle, clock, timeout, i + 1, st', next)
    ensures r.Some? ==>
      && st'.input == s0.input && WithinTimeout(clock, timeout, i) && next >= Min(i, |Ready(s0)|)
      && next <= |s0.Backlog()|
      && (forall j :: 1 <= j < next ==> needle.check(s0.Backlog()[..j], false) == Ok([]))
      && WaitEnds(s0, needle, clock, timeout, r.value, st', next, eof, i)
      && (eof ==> EofAccounted(s0, next))
      && (eof && needle.check(s0.Backlog()[..next], true) == Ok([]) ==> r.value == Err(Eof))
      && (!eof && EventualStop(s0) == AtEof ==> i < next + WouldBlocks(s0.Script()))
  {
    r, st', next, eof := Round(st, checking, needle, clock[i], timeout);
    if r.Some? {
      WaitEndsWithRound(s0, needle, clock, timeout, st, checking, i, r.value, st', next, eof);
    } else {
      WaitingGoesOn(s0, needle, clock, timeout, i, st, checking, st', next);
    }
  }

  /** A wait whose clock readings are used up is still waiting: nothing
      consumed, no match on any prefix shown, and its rounds paid for. */
  lemma WaitingRunsOut(s0: Stream, needle: Needle, clock: seq<nat>, timeout: Option<nat>,
                       st: Stream, checking: nat)
    requires Waiting(s0, needle, clock, timeout, |clock|, st, checking)
    ensures st.input == s0.input && st.Backlog() == s0.Backlog() && checking <= |s0.Backlog()|
    ensures forall j :: 1 <= j <= checking ==> needle.check(s0.Backlog()[..j], false) == Ok([])
    ensures checking >= Min(|clock|, |Ready(s0)|) && WithinTimeout(clock, timeout, |clock|)
    ensures || |clock| <= checking + WouldBlocks(s0.Script())
            || (checking == |Eventual(s0)| && EventualStop(s0) == WouldBlockStop)
  {
    NoEarlierMatchAll(needle, s0.Backlog(), checking);
  }

  /** `Session::expect`. Each round reads at most one byte, and only when
      every buffered byte has been shown to the needle; the needle then
      sees one byte more than the round before. A match consumes the bytes
      up to its end; end of file, a failed read and the timeout stop the
      wait. `clock[i]` is the time elapsed since the start, in
      milliseconds, when round `i` compares it with the timeout; the model
      runs at most `|clock|` rounds.

      The ghost results say what the needle was last shown: the first
      `checked` bytes of the stream, with `eofSeen`; `rounds` counts the
      rounds that ended without a result. */
  method Expect(s: Session, needle: Needle, clock: seq<nat>)
    returns (r: Expectation, s': Session, ghost checked: nat, ghost eofSeen: bool, ghost rounds: nat)
    requires WellBehaved(needle)
    ensures s'.expectTimeout == s.expectTimeout && s'.stream.input == s.stream.input
    // the needle was shown a growing prefix and did not match any shorter one
    ensures checked <= |s.stream.Backlog()|
    ensures forall j :: 1 <= j < checked ==> needle.check(s.stream.Backlog()[..j], false) == Ok([])
    ensures r == StillWaiting ==>
      && !eofSeen
      && forall j :: 1 <= j <= checked ==> needle.check(s.stream.Backlog()[..j], false) == Ok([])
    // progress: each round shows one byte more while bytes are ready without waiting
    ensures checked >= Min(rounds, |Ready(s.stream)|)
    // end of file is seen only once the child has nothing more to give,
    // and with no match it ends the wait with Eof
    ensures eofSeen ==> EofAccounted(s.stream, checked)
    ensures eofSeen && needle.check(s.stream.Backlog()[..checked], true) == Ok([]) ==> r == Finished(Err(Eof))
    // liveness: each round without a result showed a byte more or used up one
    // of the child's WouldBlock answers, unless the child has given every byte
    // it will and stays quiet; a last round that did not meet end of file of a
    // child that ends in it did the same
    ensures r == StillWaiting ==>
      || rounds <= checked + WouldBlocks(s.stream.Script())
      || (checked == |Eventual(s.stream)| && EventualStop(s.stream) == WouldBlockStop)
    ensures r.Finished? && !eofSeen && EventualStop(s.stream) == AtEof ==>
      rounds < checked + WouldBlocks(s.stream.Script())
    // a match, or one of the ways a wait fails
    ensures r.Finished? ==>
      WaitEnds(s.stream, needle, clock, s.expectTimeout, r.result, s'.stream, checked, eofSeen, rounds)
    ensures r == StillWaiting ==> s'.stream.Backlog() == s.stream.Backlog()
    // the timeout: every round that ended without a result was within it
    ensures rounds <= |clock| && (r == StillWaiting <==> rounds == |clock|)
    ensures WithinTimeout(clock, s.expectTimeout, rounds)
  {
    WaitingStarts(s.stream, needle, clock, s.expectTimeout);
    var st := s.stream;
    var checking := 0;
    var i := 0;
    while i < |clock|
      invariant Waiting(s.stream, needle, clock, s.expectTimeout, i, st, checking)
    {
      var r, st', next, eof := WaitRound(s.stream, needle, clock, s.expectTimeout, i, st, checking);
      if r.Some? {
        return Finished(r.value), s.(stream := st'), next, eof, i;
      }
      st, checking := st', next;
      i := i + 1;
    }
    WaitingRunsOut(s.stream, needle, clock, s.expectTimeout, st, checking);
    return StillWaiting, s.(stream := st), checking, false, i;
  }

  /** What a round without a result leaves: nothing consumed, no match on
      the prefix shown, the timeout not passed, at most the one byte read
      taken into the buffer, and what the child will give unchanged. */
  predicate GoesOn(st: Stream, checking: nat, needle: Needle, elapsed: nat, timeout: Option<nat>,
                   st': Stream, next: nat)
  {
    && st'.Backlog() == st.Backlog() && next <= |st'.Available()| <= |st'.Backlog()|
    && needle.check(st.Backlog()[..next], false) == Ok([])
    && (timeout.None? || elapsed <= timeout.value)
    && (st' == st || (st'.Pending() == [] && checking == |st.Available()|
                      && |st'.Available()| <= |st.Available()| + |st.Pending()| + 1))
    && Eventual(st') == Eventual(st) && EventualStop(st') == EventualStop(st)
    && |Ready(st')| >= |Ready(st)|
  }

  /** One pass of the `expect` loop, from the stream `st` with the first
      `checking` bytes already shown to the needle, `elapsed` being the
      clock reading of the pass: None to go round again, otherwise the
      result. The needle is shown the first `next` bytes of the backlog,
      one more than before whenever there is one. */
  method Round(st: Stream, checking: nat, needle: Needle, elapsed: nat, timeout: Option<nat>)
    returns (r: Option<Result<Found, Error>>, st': Stream, next: nat, eof: bool)
    requires WellBehaved(needle) && checking <= |st.Available()|
    ensures st'.input == st.input
    ensures checking <= next <= checking + 1 && next <= |st.Backlog()|
    // progress: a byte is shown whenever one is buffered or ready
    ensures checking < |st.Available()| ==> next == checking + 1
    ensures r.None? ==> next == checking + 1 || (checking == |st.Available()| && |Ready(st)| == checking)
    // end of file is what the one-byte read reported, and then nothing more is to come
    ensures eof <==> checking == |st.Available()| && InnerRead(st.Script(), 1).0 == Ok([])
    ensures eof ==>
      && EventualStop(st) == AtEof && Eventual(st) == st.Available() + st.Pending()
      && next == checking + (if |st.Pending()| > 0 then 1 else 0)
    // end of file with no match ends the wait with Eof, before the timeout is looked at
    ensures r.None? ==> !eof
    ensures eof && needle.check(st.Backlog()[..next], true) == Ok([]) ==> r == Some(Err(Eof))
    // a failed read ends the wait with its error, before the needle is asked
    ensures var answer := InnerRead(st.Script(), 1).0;
      checking == |st.Available()| && answer.Err? && answer.error.kind != WouldBlock ==>
        r == Some(Err(IO(answer.error)))
    // which way the round goes: a failed read, then the needle's error or
    // match, then end of file, then the timeout; otherwise another round
    ensures var answer, found := InnerRead(st.Script(), 1).0, needle.check(st.Backlog()[..next], eof);
      r == (if checking == |st.Available()| && answer.Err? && answer.error.kind != WouldBlock
              then Some(Err(IO(answer.error)))
            else if found.Err? then Some(Err(found.error))
            else if |found.value| > 0
              then Some(Ok(Found(st.Backlog()[..RightMostIndex(found.value)], found.value)))
            else if eof then Some(Err(Eof))
            else if timeout.Some? && elapsed > timeout.value then Some(Err(ExpectTimeout))
            else None)
    // a round that neither met end of file nor failed reading went forward
    ensures WouldBlocks(st'.Script()) <= WouldBlocks(st.Script())
    ensures r.None? ==> Progressed(st, checking, st', next)
    ensures !eof && !EventualStop(st).FailedStop? ==> Progressed(st, checking, st', next)
    // no result: nothing consumed, nothing matched, the timeout not passed
    ensures r.None? ==> GoesOn(st, checking, needle, elapsed, timeout, st', next)
    // a match on the prefix, or one of the ways a wait fails
    ensures r.Some? ==> RoundEnds(st, checking, needle, elapsed, timeout, r.value, st', next, eof)
  {
    var answer, st1, n := Advance(st, checking);
    next := n;
    if answer.Err? {
      return Some(Err(FromIo(answer.error))), st1, next, false;
    }
    eof := answer.value;
    r, st' := Decide(st, checking, needle, elapsed, timeout, st1, next, eof);
    DecidedInOrder(st, checking, needle, elapsed, timeout, r, st', next, eof);
  }

  /** What a round that did not fail reading promises fixes its outcome:
      the needle's error or match, then end of file, then the timeout,
      otherwise another round. */
  lemma DecidedInOrder(st: Stream, checking: nat, needle: Needle, elapsed: nat, timeout: Option<nat>,
                       r: Option<Result<Found, Error>>, st': Stream, next: nat, eof: bool)
    requires next <= |st.Backlog()|
    requires var answer := InnerRead(st.Script(), 1).0;
      !(checking == |st.Available()| && answer.Err? && answer.error.kind != WouldBlock)
    requires r.None? ==>
      && !eof && needle.check(st.Backlog()[..next], false) == Ok([])
      && (timeout.None? || elapsed <= timeout.value)
    requires eof && needle.check(st.Backlog()[..next], true) == Ok([]) ==> r == Some(Err(Eof))
    requires r.Some? ==> RoundEnds(st, checking, needle, elapsed, timeout, r.value, st', next, eof)
    ensures var found := needle.check(st.Backlog()[..next], eof);
      r == (if found.Err? then Some(Err(found.error))
            else if |found.value| > 0
              then Some(Ok(Found(st.Backlog()[..RightMostIndex(found.value)], found.value)))
            else if eof then Some(Err(Eof))
            else if timeout.Some? && elapsed > timeout.value then Some(Err(ExpectTimeout))
            else None)
  {
  }

  /** The tail of an `expect` round, after `Advance` turned `st` into
      `st1` with the first `next` bytes to be shown: the needle's verdict,
      then the timeout. */
  method Decide(st: Stream, checking: nat, needle: Needle, elapsed: nat, timeout: Option<nat>,
                st1: Stream, next: nat, eof: bool)
    returns (r: Option<Result<Found, Error>>, st': Stream)
    requires WellBehaved(needle) && checking <= next <= checking + 1 && next <= |st1.Available()|
    requires st1.Backlog() == st.Backlog() && st1.Available()[..next] == st.Backlog()[..next]
    requires st1 == st || (st1.Pending() == [] && checking == |st.Available()|
                           && |st1.Available()| <= |st.Available()| + |st.Pending()| + 1)
    ensures st'.input == st1.input && st'.Script() == st1.Script()
    ensures eof && needle.check(st.Backlog()[..next], true) == Ok([]) ==> r == Some(Err(Eof))
    ensures r.None? ==>
      && st' == st1 && !eof && needle.check(st.Backlog()[..next], false) == Ok([])
      && (timeout.None? || elapsed <= timeout.value)
    ensures r.Some? ==> RoundEnds(st, checking, needle, elapsed, timeout, r.value, st', next, eof)
  {
    var found := needle.check(st1.Available()[..next], eof);
    var verdict := Verdict(st1, next, eof, found);
    if verdict.Some? {
      if verdict.value.0.Ok? {
        AvailableLeadsBacklog(st1, RightMostIndex(verdict.value.0.value.matches));
      }
      return Some(verdict.value.0), verdict.value.1;
    }
    if timeout.Some? && elapsed > timeout.value {
      return Some(Err(ExpectTimeout)), st1;
    }
    return None, st1;
  }

  /** Everything `check` and `is_matched` get to see: the buffered bytes
      followed by what the inner reader gives until it has nothing more. */
  function Visible(s: Session): seq<u8> {
    Ready(s.stream)
  }

  /** Whether reading everything available ran into end of file. */
  predicate SawEof(s: Session) {
    Drain(s.stream.Script()).stop == AtEof
  }

  /** `Session::check`: read everything available, show all of it to the
      needle at once, and consume up to the end of the matches. Without a
      match the answer is an empty `Found`, or `Eof` once the child closed. */
  method Check(s: Session, needle: Needle) returns (r: Result<Found, Error>, s': Session)
    requires WellBehaved(needle)
    ensures s'.expectTimeout == s.expectTimeout && s'.stream.input == s.stream.input
    ensures s'.stream.Pending() == []
    ensures Drain(s.stream.Script()).stop.FailedStop? ==>
      r == Err(IO(Drain(s.stream.Script()).stop.err)) && s'.stream.Available() == Visible(s)
    ensures !Drain(s.stream.Script()).stop.FailedStop? && needle.check(Visible(s), SawEof(s)).Err? ==>
      r == Err(needle.check(Visible(s), SawEof(s)).error) && s'.stream.Available() == Visible(s)
    ensures !Drain(s.stream.Script()).stop.FailedStop? && needle.check(Visible(s), SawEof(s)) == Ok([]) ==>
      r == (if SawEof(s) then Err(Eof) else Ok(Found([], []))) && s'.stream.Available() == Visible(s)
    ensures !Drain(s.stream.Script()).stop.FailedStop? && needle.check(Visible(s), SawEof(s)).Ok?
            && |needle.check(Visible(s), SawEof(s)).value| > 0 ==>
      var ms := needle.check(Visible(s), SawEof(s)).value;
      && r == Ok(Found(Visible(s)[..RightMostIndex(ms)], ms))
      && r.value.bytes + s'.stream.Available() == Visible(s)
    ensures s'.stream.Script() == Drain(s.stream.Script()).rest
    ensures r.Ok? ==> r.value.bytes + s'.stream.Backlog() == s.stream.Backlog()
    ensures r.Err? ==> s'.stream.Backlog() == s.stream.Backlog()
  {
    var eof, st := ReadAvailable(s.stream);
    DrainKeepsBacklog(s.stream, st);
    s' := s.(stream := st);
    if eof.Err? {
      return Err(FromIo(eof.error)), s';
    }
    var buf := st.Available();
    assert buf == Visible(s) && eof.value == SawEof(s);
    var found := needle.check(buf, eof.value);
    var verdict := Verdict(st, |buf|, eof.value, found);
    if verdict.Some? {
      return verdict.value.0, s'.(stream := verdict.value.1);
    }
    return Ok(Found([], [])), s';
  }

  /** `Session::is_matched`: like `check`, but it only reports whether the
      needle matches and never consumes. */
  method IsMatched(s: Session, needle: Needle) returns (r: Result<bool, Error>, s': Session)
    ensures s'.expectTimeout == s.expectTimeout && s'.stream.input == s.stream.input
    ensures s'.stream.Backlog() == s.stream.Backlog()
    ensures s'.stream.Available() == Visible(s) && s'.stream.Pending() == []
    ensures s'.stream.Script() == Drain(s.stream.Script()).rest
    ensures Drain(s.stream.Script()).stop.FailedStop? ==> r == Err(IO(Drain(s.stream.Script()).stop.err))
    ensures !Drain(s.stream.Script()).stop.FailedStop? && needle.check(Visible(s), SawEof(s)).Err? ==>
      r == Err(needle.check(Visible(s), SawEof(s)).error)
    ensures !Drain(s.stream.Script()).stop.FailedStop? && needle.check(Visible(s), SawEof(s)).Ok? ==>
      r == (if |needle.check(Visible(s), SawEof(s)).value| > 0 then Ok(true)
            else if SawEof(s) then Err(Eof) else Ok(false))
  {
    var eof, st := ReadAvailable(s.stream);
    DrainKeepsBacklog(s.stream, st);
    s' := s.(stream := st);
    if eof.Err? {
      return Err(FromIo(eof.error)), s';
    }
    var found := needle.check(st.Available(), eof.value);
    if found.Err? {
      return Err(found.error), s';
    }
    if |found.value| > 0 {
      return Ok(true), s';
    }
    if eof.value {
      return Err(Eof), s';
    }
    return Ok(false), s';
  }

  // ---------------------------------------------------------------------
  // Writing to the child

  /** The two line-ending conventions `send_line` is compiled for. */
  datatype Platform = Unix | Windows

  function LineEnding(p: Platform): seq<u8> {
    match p
    case Unix => [0x0A]
    case Windows => [0x0D, 0x0A]
  }

  /** `Session::send`: the text's UTF-8 bytes, written in full. */
  function Send(s: Session, text: string): (res: (Result<(), IoError>, Session))
    ensures res.0.Ok? <==> s.stream.input.fault.None? || |text| == 0
    ensures res.1.stream.input.sent == s.stream.input.sent + (if res.0.Ok? then Encode(text) else [])
    ensures res.1.stream.output == s.stream.output && res.1.expectTimeout == s.expectTimeout
  {
    var (result, w) := WriteAll(s.stream.input, Encode(text));
    (result, s.(stream := s.stream.(input := w)))
  }

  lemma ConcatLine(a: seq<u8>, b: seq<u8>)
    ensures Concat([a, b, []]) == a + b
  {
    var none: seq<u8> := [];
    var bufs := [a, b, none];
    assert bufs[1..] == [b, none] && bufs[1..][1..] == [none];
    assert Concat([none]) == none + Concat([none][1..]);
    assert [none][1..] == [];
  }

  /** `Session::send_line`: on unix one vectored write of the text, a line
      feed and an empty slice; on windows two `write_all`s, the second of
      carriage return and line feed; then a flush. The byte count of the
      vectored write is ignored, as in the original. */
  function SendLine(s: Session, text: string, p: Platform): (res: (Result<(), IoError>, Session))
    ensures res.0.Ok? <==> s.stream.input.fault.None?
    ensures res.1.stream.input.sent == s.stream.input.sent + (if res.0.Ok? then Encode(text) + LineEnding(p) else [])
    ensures res.1.stream.output == s.stream.output && res.1.expectTimeout == s.expectTimeout
  {
    var w := s.stream.input;
    match p
    case Unix =>
      var (written, w1) := WriteVectored(w, [Encode(text), LineEnding(Unix), []]);
      ConcatLine(Encode(text), LineEnding(Unix));
      var s1 := s.(stream := s.stream.(input := w1));
      if written.Err? then (Err(written.error), s1)
      else (Flush(w1), s1)
    case Windows =>
      var (first, w1) := WriteAll(w, Encode(text));
      if first.Err? then (first, s.(stream := s.stream.(input := w1)))
      else
        var (second, w2) := WriteAll(w1, LineEnding(Windows));
        var s2 := s.(stream := s.stream.(input := w2));
        if second.Err? then (second, s2)
        else (Flush(w2), s2)
  }

  /** What the child receives from a successful `send_line` is the text
      and the line ending: the text can be read back from it. */
  lemma SendLineReadBack(s: Session, text: string, p: Platform)
    requires s.stream.input.fault.None?
    ensures var sent := SendLine(s, text, p).1.stream.input.sent;
      var line := sent[|s.stream.input.sent|..];
      && |line| >= |LineEnding(p)|
      && line[|line| - |LineEnding(p)|..] == LineEnding(p)
      && Decode(line[..|line| - |LineEnding(p)|]) == Some(text)
  {
    var sent := SendLine(s, text, p).1.stream.input.sent;
    var line := sent[|s.stream.input.sent|..];
    assert line == Encode(text) + LineEnding(p);
    assert line[..|line| - |LineEnding(p)|] == Encode(text);
    DecodeEncode(text);
  }

  /** The message of the error a control code that cannot be parsed gives. */
  const ControlParseText: string := "Failed to parse " + "a control character"

  /** `Session::send_control`. The conversion into a `ControlCode` happens
      before the call: `code` is its outcome, `None` when it failed. */
  function SendControl(s: Session, code: Option<u8>): (res: (Result<(), IoError>, Session))
    ensures code.None? ==> res == (Err(IoError(OtherKind, ControlParseText)), s)
    ensures code.Some? ==>
      && (res.0.Ok? <==> s.stream.input.fault.None?)
      && res.1.stream.input.sent == s.stream.input.sent + (if res.0.Ok? then [code.value] else [])
      && res.1.stream.output == s.stream.output && res.1.expectTimeout == s.expectTimeout
  {
    match code
    case None => (Err(IoError(OtherKind, ControlParseText)), s)
    case Some(c) =>
      var (result, w) := WriteAll(s.stream.input, [c]);
      (result, s.(stream := s.stream.(input := w)))
  }

  // ---------------------------------------------------------------------
  // Lazy `expect` against greedy `check`

  predicate IsDigit(b: u8) {
    0x30 <= b <= 0x39
  }

  /** Index of the first digit at or after `i`, or `|data|`. */
  function FirstDigit(data: seq<u8>, i: nat): (k: nat)
    requires i <= |data|
    ensures i <= k <= |data|
    ensures k < |data| ==> IsDigit(data[k])
    ensures forall j :: i <= j < k ==> !IsDigit(data[j])
    decreases |data| - i
  {
    if i == |data| || IsDigit(data[i]) then i else FirstDigit(data, i + 1)
  }

  /** End of the run of digits starting at `i`. */
  function RunEnd(data: seq<u8>, i: nat): (k: nat)
    requires i <= |data|
    ensures i <= k <= |data|
    ensures forall j :: i <= j < k ==> IsDigit(data[j])
    ensures k < |data| ==> !IsDigit(data[k])
    decreases |data| - i
  {
    if i < |data| && IsDigit(data[i]) then RunEnd(data, i + 1) else i
  }

  /** A greedy `\d+`: the leftmost longest run of ASCII digits. */
  function DigitRun(data: seq<u8>, eof: bool): (r: Result<seq<Match>, Error>)
    ensures r.Ok? && MatchesWithin(r.value, |data|)
    ensures |r.value| == 0 <==> forall j :: 0 <= j < |data| ==> !IsDigit(data[j])
  {
    var i := FirstDigit(data, 0);
    if i == |data| then Ok([]) else Ok([Match(i, RunEnd(data, i + 1))])
  }

  lemma DigitRunWellBehaved()
    ensures WellBehaved(Needle(DigitRun))
  {
  }

  /** The child has printed "123" and nothing is buffered yet. */
  function DigitsSession(): Session {
    Spawned(Stream(Writer([], None), BufReader([], ReaderWithBuffer([Data([0x31, 0x32, 0x33])], []))))
  }

  lemma DigitRunOnDigits()
    ensures DigitRun([0x31], false) == Ok([Match(0, 1)])
    ensures DigitRun([0x31], true) == Ok([Match(0, 1)])
    ensures DigitRun([0x31, 0x32, 0x33], false) == Ok([Match(0, 3)])
    ensures DigitRun([], false) == Ok([]) && DigitRun([], true) == Ok([])
  {
    assert FirstDigit([0x31], 0) == 0;
    assert RunEnd([0x31], 1) == 1;
    var d: seq<u8> := [0x31, 0x32, 0x33];
    assert FirstDigit(d, 0) == 0;
    assert RunEnd(d, 3) == 3 && RunEnd(d, 2) == 3 && RunEnd(d, 1) == 3;
  }

  /** With "123" to read and a `\d+` needle, a single round of `expect`
      returns "1": the needle already matches on the first byte. */
  method LazyDigits() returns (lazy: Expectation)
    ensures lazy == Finished(Ok(Found([0x31], [Match(0, 1)])))
  {
    var s := DigitsSession();
    var B: seq<u8> := [0x31, 0x32, 0x33];
    DigitRunWellBehaved();
    DigitRunOnDigits();
    assert s.stream.Backlog() == B && B[..1] == [0x31];
    // "123" is ready at once, and the child neither closes nor fails
    assert |Ready(s.stream)| == 3;
    assert EventualStop(s.stream) == WouldBlockStop;
    ghost var checked, eofSeen, rounds;
    var s1;
    lazy, s1, checked, eofSeen, rounds := Expect(s, Needle(DigitRun), [0]);
    FirstDigitMatch(checked, eofSeen, lazy.result.value.matches);
  }

  /** What `expect` can have matched on "123" with the `\d+` needle: the
      needle matches nothing on no bytes and already matches on one, so
      the first match is on the first byte alone. */
  lemma FirstDigitMatch(checked: nat, eofSeen: bool, ms: seq<Match>)
    requires checked <= 3 && |ms| > 0
    requires forall j :: 1 <= j < checked ==> DigitRun([0x31, 0x32, 0x33][..j], false) == Ok([])
    requires DigitRun([0x31, 0x32, 0x33][..checked], eofSeen) == Ok(ms)
    ensures checked == 1 && ms == [Match(0, 1)]
    ensures [0x31, 0x32, 0x33][..RightMostIndex(ms)] == [0x31 as u8]
  {
    var B: seq<u8> := [0x31, 0x32, 0x33];
    DigitRunOnDigits();
    assert B[..0] == [] && B[..1] == [0x31];
  }

  /** A child that closed without printing anything: whatever the clock
      reads, the first round meets end of file, and `expect` fails with
      `Eof`, not with the timeout. */
  method ClosedChildEof(clock: seq<nat>) returns (r: Expectation)
    requires |clock| > 0
    ensures r == Finished(Err(Eof))
  {
    var s := Spawned(Stream(Writer([], None), BufReader([], ReaderWithBuffer([Closed], []))));
    DigitRunWellBehaved();
    DigitRunOnDigits();
    assert s.stream.Backlog() == [] && WouldBlocks(s.stream.Script()) == 0;
    assert EventualStop(s.stream) == AtEof;
    ghost var checked, eofSeen, rounds;
    var s1;
    r, s1, checked, eofSeen, rounds := Expect(s, Needle(DigitRun), clock);
    assert s.stream.Backlog()[..checked] == [];
  }

  /** A child that is quiet once and then prints "1": the first round
      waits out the WouldBlock, the second reads the byte, and the `\d+`
      needle matches it, as long as the clock stays within the timeout. */
  method QuietThenDigit(clock: seq<nat>) returns (r: Expectation)
    requires |clock| >= 2 && forall k :: 0 <= k < |clock| ==> clock[k] <= DefaultExpectTimeout
    ensures r == Finished(Ok(Found([0x31], [Match(0, 1)])))
  {
    var s := Spawned(Stream(Writer([], None), BufReader([], ReaderWithBuffer([Blocked, Data([0x31])], []))));
    assert s.stream.Backlog() == Eventual(s.stream) == [0x31];
    assert WouldBlocks(s.stream.Script()) == 1;
    assert EventualStop(s.stream) == WouldBlockStop;
    r := DigitAfterWaits(s, clock);
  }

  /** Whenever the child will print "1" and then stay quiet, with at most
      one WouldBlock answer on the way, two rounds within the timeout are
      enough for the `\d+` needle to match it. */
  method DigitAfterWaits(s: Session, clock: seq<nat>) returns (r: Expectation)
    requires s.stream.Backlog() == Eventual(s.stream) == [0x31] && s.expectTimeout == Some(DefaultExpectTimeout)
    requires WouldBlocks(s.stream.Script()) <= 1 && EventualStop(s.stream) == WouldBlockStop
    requires |clock| >= 2 && forall k :: 0 <= k < |clock| ==> clock[k] <= DefaultExpectTimeout
    ensures r == Finished(Ok(Found([0x31], [Match(0, 1)])))
  {
    var B: seq<u8> := [0x31];
    DigitRunWellBehaved();
    DigitRunOnDigits();
    assert B[..0] == [] && B[..1] == B;
    ghost var checked, eofSeen, rounds;
    var s1;
    r, s1, checked, eofSeen, rounds := Expect(s, Needle(DigitRun), clock);
    // still waiting would need more rounds than the byte and the WouldBlock
    // answer pay for, or "1" shown without a match
    assert r.Finished?;
    // the needle never fails, the child neither fails nor closes, and the
    // clock stays within the timeout
    assert r.result.Ok?;
    assert checked == 1;
    assert RightMostIndex([Match(0, 1)]) == 1;
  }

  /** The same output shown to `check`: it sees all three bytes at once and
      returns "123". */
  method GreedyDigits() returns (greedy: Result<Found, Error>)
    ensures greedy == Ok(Found([0x31, 0x32, 0x33], [Match(0, 3)]))
  {
    var s := DigitsSession();
    var needle := Needle(DigitRun);
    DigitRunWellBehaved();
    DigitRunOnDigits();
    assert Drain(s.stream.Script()).data == [0x31, 0x32, 0x33];
    assert Visible(s) == [0x31, 0x32, 0x33];
    assert !SawEof(s);
    var s2;
    greedy, s2 := Check(s, needle);
    assert Visible(s)[..3] == Visible(s);
  }
}
