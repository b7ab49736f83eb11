/**
 Reading a generation stream line by line and accumulating it into a job with a size limit.

 Whitespace trimming and the JSON of a single event are parameters: every result holds for all of them.
 */
module StreamJob {
  import opened Basics
  import opened Text

  const NEWLINE: Byte := 10
  const DATA: Bytes := [100, 97, 116, 97, 58]
  const OUTPUT_LIMIT := 1048576

  datatype Event = Event(text: Bytes, model: Bytes, inputTokens: Option<int>, outputTokens: Option<int>,
                         reasoningTokens: Option<int>, error: Bytes)

  datatype Decoder = Decoder(trim: Bytes -> Bytes, parse: Bytes -> Event)

  /** The events of one complete line: one for a data line, none otherwise. */
  function LineEvents(d: Decoder, line: Bytes): seq<Event> {
    var trimmed := d.trim(line);
    if DATA <= trimmed then [d.parse(d.trim(trimmed[|DATA|..]))] else []
  }

  /** bytes.IndexByte. */
  function IndexByte(s: Bytes, b: Byte): (i: int)
    ensures -1 <= i < |s|
    ensures i < 0 ==> b !in s
    ensures i >= 0 ==> s[i] == b && b !in s[..i]
  {
    if s == [] then -1
    else if s[0] == b then 0
    else
      var i := IndexByte(s[1..], b);
      assert i >= 0 ==> s[..i + 1] == [s[0]] + s[1..][..i];
      if i < 0 then -1 else i + 1
  }

  /** What the loop of Write delivers from a buffer, and what it leaves pending. */
  function Feed(d: Decoder, buffer: Bytes): (seq<Event>, Bytes)
    decreases |buffer|
  {
    var i := IndexByte(buffer, NEWLINE);
    if i < 0 then ([], buffer)
    else
      var (events, rest) := Feed(d, buffer[i + 1..]);
      (LineEvents(d, buffer[..i]) + events, rest)
  }

  function AllEvents(d: Decoder, lines: seq<Bytes>): seq<Event> {
    if lines == [] then [] else LineEvents(d, lines[0]) + AllEvents(d, lines[1..])
  }

  /** The buffer loop agrees with splitting: events of every terminated line, the unterminated tail pending. */
  lemma {:induction false} FeedIsSplit(d: Decoder, buffer: Bytes)
    ensures var pieces := Split(buffer, NEWLINE); var last := |pieces| - 1;
            Feed(d, buffer) == (AllEvents(d, pieces[..last]), pieces[last]) && NEWLINE !in pieces[last]
    decreases |buffer|
  {
    hide Feed, LineEvents, Split, IndexByte;
    var i := IndexByte(buffer, NEWLINE);
    FeedUnfolds(d, buffer);
    if i < 0 {
      SplitWithout(buffer, NEWLINE);
      assert [buffer][..0] == [];
    } else {
      var line, rest := buffer[..i], buffer[i + 1..];
      FeedIsSplit(d, rest);
      assert buffer == line + [NEWLINE] + rest;
      SplitAtFirst(line, rest, NEWLINE);
      var pieces, tail := Split(buffer, NEWLINE), Split(rest, NEWLINE);
      var lines := tail[..|tail| - 1];
      assert pieces[..|pieces| - 1] == [line] + lines && ([line] + lines)[1..] == lines;
    }
  }

  /** Feeding more bytes goes on from the pending tail. */
  lemma {:induction false} FeedMore(d: Decoder, a: Bytes, b: Bytes)
    ensures var (first, rest) := Feed(d, a); var (more, left) := Feed(d, rest + b);
            Feed(d, a + b) == (first + more, left)
    decreases |a|
  {
    hide Feed, LineEvents, IndexByte;
    var i := IndexByte(a, NEWLINE);
    FeedUnfolds(d, a);
    if i >= 0 {
      var tail := a[i + 1..];
      FeedMore(d, tail, b);
      IndexByteUnique(a + b, NEWLINE, i);
      FeedUnfolds(d, a + b);
      assert (a + b)[..i] == a[..i] && (a + b)[i + 1..] == tail + b;
      var (first, rest) := Feed(d, tail);
      var (more, left) := Feed(d, rest + b);
      assert LineEvents(d, a[..i]) + (first + more) == (LineEvents(d, a[..i]) + first) + more;
    } else {
      assert [] + Feed(d, a + b).0 == Feed(d, a + b).0;
    }
  }

  lemma IndexByteUnique(s: Bytes, b: Byte, i: nat)
    requires i < |s| && s[i] == b && b !in s[..i]
    ensures IndexByte(s, b) == i
  {}

  // ---- the job -------------------------------------------------------------------------------

  datatype Job = Job(output: Bytes, firstContent: Option<int>, model: Bytes, inputTokens: Option<int>,
                     outputTokens: Option<int>, reasoningTokens: Option<int>,
                     streamErr: Bytes, dirty: bool, cancelled: bool)

  const NEW_JOB := Job([], None, [], None, None, None, [], false, false)

  /** Any non-empty text stands for the message. */
  const LIMIT_MESSAGE: Bytes := [76]

  /** The onEvent callback: an event that would overflow the output is dropped whole and cancels the run. */
  function OnEvent(job: Job, e: Event, elapsed: int): Job {
    if e.text != [] && |job.output| + |e.text| > OUTPUT_LIMIT then
      job.(streamErr := LIMIT_MESSAGE, cancelled := true)
    else
      Job(job.output + e.text,
          if e.text != [] && job.firstContent.None? then Some(elapsed) else job.firstContent,
          if e.model != [] then e.model else job.model,
          if e.inputTokens.Some? then e.inputTokens else job.inputTokens,
          if e.outputTokens.Some? then e.outputTokens else job.outputTokens,
          if e.reasoningTokens.Some? then e.reasoningTokens else job.reasoningTokens,
          if e.error != [] then e.error else job.streamErr,
          true, job.cancelled)
  }

  /** Absorbs events in order; elapsed gives the running time at the n-th event of the stream. */
  function Absorb(job: Job, events: seq<Event>, elapsed: nat -> int, n: nat): Job
    decreases |events|
  {
    if events == [] then job else Absorb(OnEvent(job, events[0], elapsed(n)), events[1..], elapsed, n + 1)
  }

  lemma {:induction false} AbsorbMore(job: Job, a: seq<Event>, b: seq<Event>, elapsed: nat -> int, n: nat)
    ensures Absorb(job, a + b, elapsed, n) == Absorb(Absorb(job, a, elapsed, n), b, elapsed, n + |a|)
    decreases |a|
  {
    if a == [] {
      assert a + b == b;
    } else {
      AbsorbMore(OnEvent(job, a[0], elapsed(n)), a[1..], b, elapsed, n + 1);
      assert (a + b)[1..] == a[1..] + b;
    }
  }

  function TextOf(events: seq<Event>): Bytes {
    if events == [] then [] else events[0].text + TextOf(events[1..])
  }

  predicate Clean(events: seq<Event>) {
    forall e :: e in events ==> e.error == []
  }

  /** The output never outgrows the limit, and an error once recorded is never cleared. */
  lemma {:induction false} AbsorbBounds(job: Job, events: seq<Event>, elapsed: nat -> int, n: nat)
    requires |job.output| <= OUTPUT_LIMIT
    ensures var j := Absorb(job, events, elapsed, n);
            |j.output| <= OUTPUT_LIMIT && (job.streamErr != [] ==> j.streamErr != [])
    decreases |events|
  {
    if events != [] { AbsorbBounds(OnEvent(job, events[0], elapsed(n)), events[1..], elapsed, n + 1); }
  }

  /** No error is recorded exactly when no event carries one and all the text fits; then all of it is the output. */
  lemma {:induction false} AbsorbErrFree(job: Job, events: seq<Event>, elapsed: nat -> int, n: nat)
    requires |job.output| <= OUTPUT_LIMIT && job.streamErr == []
    ensures var j := Absorb(job, events, elapsed, n);
            (j.streamErr == [] <==> Clean(events) && |job.output| + |TextOf(events)| <= OUTPUT_LIMIT) &&
            (j.streamErr == [] ==> j.output == job.output + TextOf(events))
    decreases |events|
  {
    if events != [] {
      var e, rest := events[0], events[1..];
      var next := OnEvent(job, e, elapsed(n));
      assert Clean(events) <==> e.error == [] && Clean(rest) by {
        assert events == [e] + rest;
      }
      if next.streamErr == [] {
        AbsorbErrFree(next, rest, elapsed, n + 1);
        assert job.output + (e.text + TextOf(rest)) == (job.output + e.text) + TextOf(rest);
      } else {
        AbsorbBounds(next, rest, elapsed, n + 1);
      }
    }
  }

  /** The last value an event supplies through pick, or the initial one. */
  function Latest<T>(events: seq<Event>, pick: Event -> Option<T>, init: Option<T>): Option<T> {
    if events == [] then init
    else if pick(events[|events| - 1]).Some? then pick(events[|events| - 1])
    else Latest(events[..|events| - 1], pick, init)
  }

  function ModelOf(e: Event): Option<Bytes> {
    if e.model != [] then Some(e.model) else None
  }

  // ---- everything the callback makes of a stream, dropped events included -------------------------

  /** The events that are taken in: one whose text does not fit any more is dropped, and later ones may fit again. */
  function Admitted(len: nat, events: seq<Event>): seq<Event> {
    if events == [] then []
    else
      var last := |events| - 1;
      var front := Admitted(len, events[..last]);
      if Overflows(len, front, events[last]) then front else front + [events[last]]
  }

  predicate Overflows(len: nat, taken: seq<Event>, e: Event) {
    e.text != [] && len + |TextOf(taken)| + |e.text| > OUTPUT_LIMIT
  }

  predicate Drops(len: nat, events: seq<Event>, i: nat)
    requires i < |events|
  {
    Overflows(len, Admitted(len, events[..i]), events[i])
  }

  /** The event leaves a message: that it overflows, or its own error. */
  predicate Noted(len: nat, events: seq<Event>, i: nat)
    requires i < |events|
  {
    Drops(len, events, i) || events[i].error != []
  }

  function Note(len: nat, events: seq<Event>, i: nat): Bytes
    requires i < |events|
  {
    if Drops(len, events, i) then LIMIT_MESSAGE else events[i].error
  }

  /** The event is the first to bring text that is taken in. */
  ghost predicate FirstText(len: nat, events: seq<Event>, i: nat)
    requires i < |events|
  {
    events[i].text != [] && !Drops(len, events, i) &&
    forall k :: 0 <= k < i ==> events[k].text == [] || Drops(len, events, k)
  }

  ghost predicate LastNote(len: nat, events: seq<Event>, i: int) {
    0 <= i < |events| && Noted(len, events, i) && forall k :: i < k < |events| ==> !Noted(len, events, k)
  }

  lemma DropsFront(len: nat, events: seq<Event>, i: nat, n: nat)
    requires i < n <= |events|
    ensures Drops(len, events, i) == Drops(len, events[..n], i)
  {
    hide Overflows, Admitted;
    assert events[..n][..i] == events[..i];
  }

  lemma AbsorbLast(job: Job, events: seq<Event>, elapsed: nat -> int, n: nat)
    requires events != []
    ensures var last := |events| - 1;
            Absorb(job, events, elapsed, n) ==
            OnEvent(Absorb(job, events[..last], elapsed, n), events[last], elapsed(n + last))
  {
    hide OnEvent, Absorb;
    var front, e := events[..|events| - 1], events[|events| - 1];
    assert events == front + [e];
    AbsorbMore(job, front, [e], elapsed, n);
    AbsorbOne(Absorb(job, front, elapsed, n), e, elapsed, n + |front|);
  }

  lemma {:induction false} TextOfMore(a: seq<Event>, b: seq<Event>)
    ensures TextOf(a + b) == TextOf(a) + TextOf(b)
  {
    if a == [] {
      assert a + b == b;
    } else {
      assert (a + b)[1..] == a[1..] + b;
      TextOfMore(a[1..], b);
    }
  }

  lemma TextOfLast(taken: seq<Event>, e: Event)
    ensures TextOf(taken + [e]) == TextOf(taken) + e.text
  {
    TextOfMore(taken, [e]);
  }

  /** The output is the text taken in. */
  lemma {:induction false} AbsorbOutput(job: Job, events: seq<Event>, elapsed: nat -> int, n: nat)
    ensures var j, len := Absorb(job, events, elapsed, n), |job.output|;
            j.output == job.output + TextOf(Admitted(len, events)) &&
            (j.dirty <==> job.dirty || Admitted(len, events) != [])
  {
    hide Absorb, TextOf;
    var len := |job.output|;
    if events == [] {
      AbsorbNone(job, elapsed, n);
      NoText();
    } else {
      var last := |events| - 1;
      var front := events[..last];
      AbsorbLast(job, events, elapsed, n);
      AbsorbOutput(job, front, elapsed, n);
      TextOfLast(Admitted(len, front), events[last]);
    }
  }

  lemma NoText()
    ensures TextOf([]) == []
  {}

  /** Model and usage are the last ones sent by an event that was taken in. */
  lemma {:induction false} AbsorbFields(job: Job, events: seq<Event>, elapsed: nat -> int, n: nat)
    ensures var j, taken := Absorb(job, events, elapsed, n), Admitted(|job.output|, events);
            j.inputTokens == Latest(taken, (e: Event) => e.inputTokens, job.inputTokens) &&
            j.outputTokens == Latest(taken, (e: Event) => e.outputTokens, job.outputTokens) &&
            j.reasoningTokens == Latest(taken, (e: Event) => e.reasoningTokens, job.reasoningTokens) &&
            Some(j.model) == Latest(taken, ModelOf, Some(job.model))
  {
    hide Absorb, TextOf, Latest;
    NoneSent(job);
    if events == [] {
      AbsorbNone(job, elapsed, n);
    } else {
      var front, e := events[..|events| - 1], events[|events| - 1];
      var taken := Admitted(|job.output|, front);
      AbsorbLast(job, events, elapsed, n);
      AbsorbFields(job, front, elapsed, n);
      AbsorbOutput(job, front, elapsed, n);
      LatestLast(taken, e, (e: Event) => e.inputTokens, job.inputTokens);
      LatestLast(taken, e, (e: Event) => e.outputTokens, job.outputTokens);
      LatestLast(taken, e, (e: Event) => e.reasoningTokens, job.reasoningTokens);
      LatestLast(taken, e, ModelOf, Some(job.model));
    }
  }

  lemma LatestLast<T>(events: seq<Event>, e: Event, pick: Event -> Option<T>, init: Option<T>)
    ensures Latest(events + [e], pick, init) == if pick(e).Some? then pick(e) else Latest(events, pick, init)
  {
    assert (events + [e])[..|events|] == events;
  }

  lemma NoneSent(job: Job)
    ensures forall pick: Event -> Option<int>, init :: Latest([], pick, init) == init
    ensures Latest([], ModelOf, Some(job.model)) == Some(job.model)
  {}

  /** What the last event changes, in terms of whether it is dropped. */
  lemma LastEvent(job: Job, events: seq<Event>, elapsed: nat -> int, n: nat)
    requires events != []
    ensures var last := |events| - 1;
            var before, j, e := Absorb(job, events[..last], elapsed, n), Absorb(job, events, elapsed, n), events[last];
            var drops := Drops(|job.output|, events, last);
            j.streamErr == (if drops then LIMIT_MESSAGE else if e.error != [] then e.error else before.streamErr) &&
            (j.cancelled <==> before.cancelled || drops) &&
            j.firstContent == if !drops && e.text != [] && before.firstContent.None? then Some(elapsed(n + last))
                              else before.firstContent
  {
    hide Absorb, TextOf, Admitted;
    AbsorbLast(job, events, elapsed, n);
    AbsorbOutput(job, events[..|events| - 1], elapsed, n);
  }

  lemma {:induction false} NoNotes(job: Job, events: seq<Event>, elapsed: nat -> int, n: nat)
    requires forall i :: 0 <= i < |events| ==> !Noted(|job.output|, events, i)
    ensures Absorb(job, events, elapsed, n).streamErr == job.streamErr
  {
    hide Absorb, Drops;
    if events == [] {
      AbsorbNone(job, elapsed, n);
    } else {
      var last := |events| - 1;
      forall i | 0 <= i < last ensures !Noted(|job.output|, events[..last], i) {
        assert !Noted(|job.output|, events, i);
        DropsFront(|job.output|, events, i, last);
      }
      NoNotes(job, events[..last], elapsed, n);
      LastEvent(job, events, elapsed, n);
      assert !Noted(|job.output|, events, last);
    }
  }

  /** The recorded error is the last message in event order. */
  lemma {:induction false} LastNoteWins(job: Job, events: seq<Event>, elapsed: nat -> int, n: nat, i: nat)
    requires i < |events| && Noted(|job.output|, events, i)
    requires forall k :: i < k < |events| ==> !Noted(|job.output|, events, k)
    ensures Absorb(job, events, elapsed, n).streamErr == Note(|job.output|, events, i)
    decreases |events|
  {
    hide Absorb, Drops;
    var last := |events| - 1;
    LastEvent(job, events, elapsed, n);
    if i < last {
      assert !Noted(|job.output|, events, last);
      forall k | i <= k < last ensures Noted(|job.output|, events[..last], k) == Noted(|job.output|, events, k) {
        DropsFront(|job.output|, events, k, last);
      }
      DropsFront(|job.output|, events, i, last);
      LastNoteWins(job, events[..last], elapsed, n, i);
    }
  }

  /** The run is cancelled exactly when some event was dropped. */
  lemma {:induction false} CancelledIffDropped(job: Job, events: seq<Event>, elapsed: nat -> int, n: nat)
    ensures Absorb(job, events, elapsed, n).cancelled <==>
            job.cancelled || exists i :: 0 <= i < |events| && Drops(|job.output|, events, i)
  {
    hide Absorb, Drops;
    if events == [] {
      AbsorbNone(job, elapsed, n);
    } else {
      var last := |events| - 1;
      forall i | 0 <= i < last ensures Drops(|job.output|, events[..last], i) == Drops(|job.output|, events, i) {
        DropsFront(|job.output|, events, i, last);
      }
      CancelledIffDropped(job, events[..last], elapsed, n);
      LastEvent(job, events, elapsed, n);
    }
  }

  lemma {:induction false} NoContent(job: Job, events: seq<Event>, elapsed: nat -> int, n: nat)
    requires job.firstContent.Some? ||
             forall i :: 0 <= i < |events| ==> events[i].text == [] || Drops(|job.output|, events, i)
    ensures Absorb(job, events, elapsed, n).firstContent == job.firstContent
  {
    hide Absorb, Drops;
    if events == [] {
      AbsorbNone(job, elapsed, n);
    } else {
      var last := |events| - 1;
      forall i | 0 <= i < last ensures Drops(|job.output|, events[..last], i) == Drops(|job.output|, events, i) {
        DropsFront(|job.output|, events, i, last);
      }
      NoContent(job, events[..last], elapsed, n);
      LastEvent(job, events, elapsed, n);
    }
  }

  /** The first content time is that of the first event whose text was taken in. */
  lemma {:induction false} FirstTextTimed(job: Job, events: seq<Event>, elapsed: nat -> int, n: nat, i: nat)
    requires job.firstContent.None? && i < |events| && FirstText(|job.output|, events, i)
    ensures Absorb(job, events, elapsed, n).firstContent == Some(elapsed(n + i))
    decreases |events|
  {
    hide Absorb, Drops;
    var last := |events| - 1;
    LastEvent(job, events, elapsed, n);
    forall k | 0 <= k < last ensures Drops(|job.output|, events[..last], k) == Drops(|job.output|, events, k) {
      DropsFront(|job.output|, events, k, last);
    }
    if i < last {
      FirstTextTimed(job, events[..last], elapsed, n, i);
    } else {
      NoContent(job, events[..last], elapsed, n);
    }
  }

  /** With nothing dropped, everything is taken in. */
  lemma {:induction false} AllAdmitted(len: nat, events: seq<Event>)
    requires len + |TextOf(events)| <= OUTPUT_LIMIT
    ensures Admitted(len, events) == events && forall i :: 0 <= i < |events| ==> !Drops(len, events, i)
  {
    hide TextOf;
    if events != [] {
      var last := |events| - 1;
      var front := events[..last];
      assert events == front + [events[last]];
      TextOfLast(front, events[last]);
      AllAdmitted(len, front);
      forall i | 0 <= i < last ensures !Drops(len, events, i) { DropsFront(len, events, i, last); }
    }
  }

  datatype Status = Completed | Stopped | Error(message: Bytes)

  const DEADLINE_MESSAGE: Bytes := [68]

  /** The final switch: the deadline outranks a stop request, which outranks stream and local errors. */
  function FinalStatus(job: Job, deadlineExceeded: bool, stopped: bool, localErr: Option<Bytes>): Status {
    if deadlineExceeded then Error(DEADLINE_MESSAGE)
    else if stopped then Stopped
    else if job.streamErr != [] then Error(job.streamErr)
    else if localErr.Some? then Error(localErr.value)
    else Completed
  }

  // ---- whole streams, however they are cut ----------------------------------------------------

  function Concat(chunks: seq<Bytes>): Bytes {
    if chunks == [] then [] else chunks[0] + Concat(chunks[1..])
  }

  datatype State = State(pending: Bytes, delivered: seq<Event>, job: Job)

  const START := State([], [], NEW_JOB)

  function WriteStep(d: Decoder, s: State, body: Bytes, elapsed: nat -> int): State {
    var (events, rest) := Feed(d, s.pending + body);
    State(rest, s.delivered + events, Absorb(s.job, events, elapsed, |s.delivered|))
  }

  function WriteAll(d: Decoder, s: State, chunks: seq<Bytes>, elapsed: nat -> int): State
    decreases |chunks|
  {
    if chunks == [] then s else WriteAll(d, WriteStep(d, s, chunks[0], elapsed), chunks[1..], elapsed)
  }

  lemma {:induction false} FeedRest(d: Decoder, buffer: Bytes)
    ensures Feed(d, Feed(d, buffer).1) == ([], Feed(d, buffer).1)
    decreases |buffer|
  {
    var i := IndexByte(buffer, NEWLINE);
    if i >= 0 { FeedRest(d, buffer[i + 1..]); }
  }

  /** Two writes do what one write of both bodies does. */
  lemma WriteTwice(d: Decoder, s: State, a: Bytes, b: Bytes, elapsed: nat -> int)
    ensures WriteStep(d, WriteStep(d, s, a, elapsed), b, elapsed) == WriteStep(d, s, a + b, elapsed)
  {
    hide Absorb, Feed;
    assert s.pending + (a + b) == (s.pending + a) + b;
    FeedMore(d, s.pending + a, b);
    var (first, rest) := Feed(d, s.pending + a);
    var (more, left) := Feed(d, rest + b);
    AbsorbMore(s.job, first, more, elapsed, |s.delivered|);
    assert s.delivered + (first + more) == (s.delivered + first) + more;
  }

  /** Cutting the stream into writes changes neither the events, nor the job, nor what stays pending. */
  lemma {:induction false} ChunkingIsInvisible(d: Decoder, s: State, chunks: seq<Bytes>, elapsed: nat -> int)
    requires Feed(d, s.pending) == ([], s.pending)
    ensures WriteAll(d, s, chunks, elapsed) == WriteStep(d, s, Concat(chunks), elapsed)
    decreases |chunks|
  {
    if chunks == [] {
      assert s.pending + [] == s.pending && s.delivered + [] == s.delivered;
    } else {
      FeedRest(d, s.pending + chunks[0]);
      ChunkingIsInvisible(d, WriteStep(d, s, chunks[0], elapsed), chunks[1..], elapsed);
      WriteTwice(d, s, chunks[0], Concat(chunks[1..]), elapsed);
    }
  }

  /** The text of every newline-terminated data line of a stream. */
  function StreamEvents(d: Decoder, stream: Bytes): seq<Event> {
    var pieces := Split(stream, NEWLINE);
    AllEvents(d, pieces[..|pieces| - 1])
  }

  /** These determine the events of every stream: a line that is data: once trimmed gives one event, parsed from the
      trimmed rest; any other line gives none; a line without its newline is not looked at. */
  lemma FirstLineEvents(d: Decoder, line: Bytes, rest: Bytes)
    requires NEWLINE !in line
    ensures forall payload :: d.trim(line) == DATA + payload ==>
              StreamEvents(d, line + [NEWLINE] + rest) == [d.parse(d.trim(payload))] + StreamEvents(d, rest)
    ensures !(DATA <= d.trim(line)) ==> StreamEvents(d, line + [NEWLINE] + rest) == StreamEvents(d, rest)
    ensures StreamEvents(d, line) == []
  {
    hide Split, AllEvents;
    SplitAtFirst(line, rest, NEWLINE);
    SplitWithout(line, NEWLINE);
    var tail := Split(rest, NEWLINE);
    var lines := tail[..|tail| - 1];
    assert ([line] + tail)[..|tail|] == [line] + lines && [line][..0] == [];
    NextLine(d, line, lines);
    forall payload | d.trim(line) == DATA + payload ensures LineEvents(d, line) == [d.parse(d.trim(payload))] {
      assert (DATA + payload)[|DATA|..] == payload && DATA <= DATA + payload;
    }
  }

  lemma NextLine(d: Decoder, line: Bytes, lines: seq<Bytes>)
    ensures AllEvents(d, [line] + lines) == LineEvents(d, line) + AllEvents(d, lines) && AllEvents(d, []) == []
  {
    assert ([line] + lines)[1..] == lines;
  }

  /** However the stream was cut: the output is the text that fits, an overflow cancels the run, and the job completes
      exactly when nothing went wrong and the whole text fits. A passed deadline outranks a stop request, which
      outranks the last message in event order, which outranks a local error. */
  lemma JobOutcome(d: Decoder, chunks: seq<Bytes>, elapsed: nat -> int, deadline: bool, stopped: bool,
                   localErr: Option<Bytes>)
    ensures var s, events := WriteAll(d, START, chunks, elapsed), StreamEvents(d, Concat(chunks));
            var status := FinalStatus(s.job, deadline, stopped, localErr);
            s.delivered == events && NEWLINE !in s.pending && |s.job.output| <= OUTPUT_LIMIT &&
            (status.Completed? <==> !deadline && !stopped && localErr.None? && Clean(events) &&
                                    |TextOf(events)| <= OUTPUT_LIMIT) &&
            (status.Completed? ==> s.job.output == TextOf(events)) &&
            s.job.output == TextOf(Admitted(0, events)) &&
            (s.job.cancelled <==> exists i :: 0 <= i < |events| && Drops(0, events, i)) &&
            (status.Stopped? <==> stopped && !deadline) && (deadline ==> status == Error(DEADLINE_MESSAGE))
    ensures var status := FinalStatus(WriteAll(d, START, chunks, elapsed).job, deadline, stopped, localErr);
            var events := StreamEvents(d, Concat(chunks));
            !deadline && !stopped ==>
              (forall i :: LastNote(0, events, i) ==> status == Error(Note(0, events, i))) &&
              ((forall i :: 0 <= i < |events| ==> !Noted(0, events, i)) && localErr.Some? ==>
                 status == Error(localErr.value))
  {
    var stream := Concat(chunks);
    var events := StreamEvents(d, stream);
    StreamState(d, chunks, elapsed);
    hide StreamEvents, Absorb, WriteAll, Concat;
    AbsorbBounds(NEW_JOB, events, elapsed, 0);
    AbsorbErrFree(NEW_JOB, events, elapsed, 0);
    AbsorbOutput(NEW_JOB, events, elapsed, 0);
    CancelledIffDropped(NEW_JOB, events, elapsed, 0);
    assert forall text: Bytes :: [] + text == text;
    forall i | LastNote(0, events, i)
      ensures Absorb(NEW_JOB, events, elapsed, 0).streamErr == Note(0, events, i) != []
    {
      LastNoteWins(NEW_JOB, events, elapsed, 0, i);
    }
    if forall i :: 0 <= i < |events| ==> !Noted(0, events, i) { NoNotes(NEW_JOB, events, elapsed, 0); }
  }

  lemma StreamState(d: Decoder, chunks: seq<Bytes>, elapsed: nat -> int)
    ensures var s, events := WriteAll(d, START, chunks, elapsed), StreamEvents(d, Concat(chunks));
            s.delivered == events && NEWLINE !in s.pending && s.job == Absorb(NEW_JOB, events, elapsed, 0)
  {
    hide Absorb, AllEvents, Split;
    var stream := Concat(chunks);
    FeedUnfolds(d, []);
    ChunkingIsInvisible(d, START, chunks, elapsed);
    hide Feed, WriteAll, Concat;
    assert [] + stream == stream;
    FeedIsSplit(d, stream);
    assert [] + StreamEvents(d, stream) == StreamEvents(d, stream);
  }

  /** The writer object: one Write call consumes the buffer line by line and calls back per event. */
  class StreamWriter {
    const decoder: Decoder
    var pending: Bytes
    var delivered: seq<Event>
    var job: Job

    ghost function View(): State
      reads this
    {
      State(pending, delivered, job)
    }

    constructor (decoder: Decoder)
      ensures View() == START && this.decoder == decoder
    {
      this.decoder := decoder;
      pending, delivered, job := [], [], NEW_JOB;
    }

    method Write(body: Bytes, elapsed: nat -> int) returns (n: nat)
      modifies this
      ensures n == |body| && View() == WriteStep(decoder, old(View()), body, elapsed)
    {
      hide Absorb, OnEvent, Feed, LineEvents;
      ghost var buffer := pending + body;
      ghost var events: seq<Event> := [];
      pending := pending + body;
      AbsorbNone(job, elapsed, |delivered|);
      assert [] + Feed(decoder, buffer).0 == Feed(decoder, buffer).0;
      while true
        invariant Feed(decoder, buffer) == (events + Feed(decoder, pending).0, Feed(decoder, pending).1)
        invariant delivered == old(delivered) + events
        invariant job == Absorb(old(job), events, elapsed, |old(delivered)|)
        decreases |pending|
      {
        var index := IndexByte(pending, NEWLINE);
        FeedUnfolds(decoder, pending);
        if index < 0 {
          assert events + [] == events;
          break;
        }
        var line := decoder.trim(pending[..index]);
        ghost var found, more := LineEvents(decoder, pending[..index]), Feed(decoder, pending[index + 1..]).0;
        LineEventsAre(decoder, pending[..index]);
        assert events + (found + more) == (events + found) + more;
        pending := pending[index + 1..];
        AbsorbMore(old(job), events, found, elapsed, |old(delivered)|);
        AbsorbNone(job, elapsed, |delivered|);
        if DATA <= line {
          var e := decoder.parse(decoder.trim(line[|DATA|..]));
          AbsorbOne(job, e, elapsed, |delivered|);
          job := OnEvent(job, e, elapsed(|delivered|));
          delivered := delivered + [e];
        }
        assert delivered == old(delivered) + (events + found);
        events := events + found;
      }
      return |body|;
    }
  }

  lemma FeedUnfolds(d: Decoder, buffer: Bytes)
    ensures var i := IndexByte(buffer, NEWLINE);
            Feed(d, buffer) == if i < 0 then ([], buffer)
                               else var (events, rest) := Feed(d, buffer[i + 1..]);
                                    (LineEvents(d, buffer[..i]) + events, rest)
  {}

  lemma LineEventsAre(d: Decoder, line: Bytes)
    ensures var t := d.trim(line);
            LineEvents(d, line) == if DATA <= t then [d.parse(d.trim(t[|DATA|..]))] else []
  {}

  lemma AbsorbNone(job: Job, elapsed: nat -> int, n: nat)
    ensures Absorb(job, [], elapsed, n) == job
  {}

  lemma AbsorbOne(job: Job, e: Event, elapsed: nat -> int, n: nat)
    ensures Absorb(job, [e], elapsed, n) == OnEvent(job, e, elapsed(n))
  {}
}
