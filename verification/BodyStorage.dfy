/**
 Request bodies kept in memory or on disk behind one interface, with usage accounting.

 A file is a byte sequence with a position; file operations succeed except where a failure is a parameter.
 */
module BodyStorage {
  import opened Basics

  const MAX_INT64 := 0x7FFF_FFFF_FFFF_FFFF

  /** What both kinds of storage stand for. */
  datatype Body = Body(data: Bytes, cursor: nat, closed: bool)

  datatype Outcome<+T> = Ok(value: T) | Closed | Eof | BadSeek

  function Min(a: int, b: int): int {
    if a < b then a else b
  }

  function Take(b: Body, n: nat): (Body, Outcome<Bytes>)
    requires b.cursor <= |b.data|
  {
    var end := Min(b.cursor + n, |b.data|);
    (b.(cursor := end), Ok(b.data[b.cursor..end]))
  }

  /** bytes.Reader reports the end of input even to an empty read. */
  function MemoryRead(b: Body, n: nat): (Body, Outcome<Bytes>) {
    if b.closed then (b, Closed) else if b.cursor >= |b.data| then (b, Eof) else Take(b, n)
  }

  /** os.File answers an empty read without looking at the position. */
  function DiskRead(b: Body, n: nat): (Body, Outcome<Bytes>) {
    if b.closed then (b, Closed) else if n == 0 then (b, Ok([]))
    else if b.cursor >= |b.data| then (b, Eof) else Take(b, n)
  }

  /** The two agree on every read but an empty one at the end of an open body. */
  lemma ReadsAgreeIff(b: Body, n: nat)
    ensures MemoryRead(b, n) == DiskRead(b, n) <==> b.closed || n > 0 || b.cursor < |b.data|
  {
    if n == 0 && b.cursor < |b.data| { assert b.data[b.cursor..b.cursor] == []; }
  }

  const SEEK_START := 0
  const SEEK_CURRENT := 1
  const SEEK_END := 2

  predicate KnownWhence(whence: int) {
    whence == SEEK_START || whence == SEEK_CURRENT || whence == SEEK_END
  }

  function SeekTo(b: Body, offset: int, whence: int): (Body, Outcome<int>) {
    if b.closed then (b, Closed)
    else if !KnownWhence(whence) then (b, BadSeek)
    else
      var base := if whence == SEEK_START then 0 else if whence == SEEK_CURRENT then b.cursor else |b.data|;
      if base + offset < 0 then (b, BadSeek) else (b.(cursor := base + offset), Ok(base + offset))
  }

  /** Where the operating system moves a file for any other whence, if it accepts it. */
  type Kernel = (Body, int, int) -> Option<nat>

  /** os.File hands an unknown whence to the system. */
  function DiskSeekTo(b: Body, offset: int, whence: int, kernel: Kernel): (Body, Outcome<int>) {
    if b.closed || KnownWhence(whence) || kernel(b, offset, whence).None? then SeekTo(b, offset, whence)
    else
      var target := kernel(b, offset, whence).value;
      (b.(cursor := target), Ok(target))
  }

  function AllBytes(b: Body): Outcome<Bytes> {
    if b.closed then Closed else Ok(b.data)
  }

  /** A second reader of the same bytes, at their start. */
  function NewReader(b: Body): Outcome<Body> {
    if b.closed then Closed else Ok(Body(b.data, 0, false))
  }

  // ---- single calls -----------------------------------------------------------------------------

  function ReadStep(kind: Kind, b: Body, n: nat): (Body, Outcome<Bytes>) {
    if kind.Memory? then MemoryRead(b, n) else DiskRead(b, n)
  }

  /** A read fails exactly on a closed body, reports the end exactly when it finds nothing, and otherwise delivers as
      much as it was asked for or is there. */
  lemma ReadOutcome(kind: Kind, b: Body, n: nat)
    ensures var (c, out) := ReadStep(kind, b, n);
            (out == Closed <==> b.closed) && out != BadSeek &&
            (out == Eof <==> !b.closed && b.cursor >= |b.data| && (kind.Memory? || n > 0)) &&
            (out.Ok? && b.cursor < |b.data| ==>
               |out.value| == Min(n, |b.data| - b.cursor) && out.value == b.data[b.cursor..c.cursor]) &&
            c == b.(cursor := if out.Ok? then b.cursor + |out.value| else b.cursor)
  {}

  /** The three ways to seek are one, counted from the start, the cursor or the end; a target before the start, an
      unknown way or a closed body changes nothing. */
  lemma SeekLaws(b: Body, offset: int, whence: int)
    ensures !b.closed && offset >= 0 ==> SeekTo(b, offset, SEEK_START) == (b.(cursor := offset), Ok(offset))
    ensures !b.closed && offset < 0 ==> SeekTo(b, offset, SEEK_START) == (b, BadSeek)
    ensures SeekTo(b, offset, SEEK_CURRENT) == SeekTo(b, b.cursor + offset, SEEK_START)
    ensures SeekTo(b, offset, SEEK_END) == SeekTo(b, |b.data| + offset, SEEK_START)
    ensures !b.closed && whence !in {0, 1, 2} ==> SeekTo(b, offset, whence) == (b, BadSeek)
    ensures b.closed ==> SeekTo(b, offset, whence) == (b, Closed)
  {}

  /** A file seeks like a reader, except that the system may accept a whence of its own and then decides the place. */
  lemma DiskSeekLaws(b: Body, offset: int, whence: int, kernel: Kernel)
    ensures whence in {0, 1, 2} || b.closed || kernel(b, offset, whence) == None ==>
              DiskSeekTo(b, offset, whence, kernel) == SeekTo(b, offset, whence)
    ensures whence !in {0, 1, 2} && !b.closed && kernel(b, offset, whence).Some? ==>
              var target := kernel(b, offset, whence).value;
              DiskSeekTo(b, offset, whence, kernel) == (Body(b.data, target, false), Ok(target))
  {}

  // ---- runs of calls ------------------------------------------------------------------------------

  datatype Call = Read(n: nat) | Seek(offset: int, whence: int) | GetBytes | GetReader | Shut

  datatype Answer =
    | Chunk(chunk: Outcome<Bytes>)
    | Position(position: Outcome<int>)
    | Reader(reader: Outcome<Body>)
    | Done

  datatype Kind = Memory | Disk(kernel: Kernel)

  function Perform(kind: Kind, b: Body, call: Call): (Body, Answer) {
    match call
    case Read(n) => var (c, r) := ReadStep(kind, b, n); (c, Chunk(r))
    case Seek(offset, whence) =>
      var (c, r) := if kind.Memory? then SeekTo(b, offset, whence) else DiskSeekTo(b, offset, whence, kind.kernel);
      (c, Position(r))
    case GetBytes => (b, Chunk(AllBytes(b)))
    case GetReader => (b, Reader(NewReader(b)))
    case Shut => (b.(closed := true), Done)
  }

  function PerformAll(kind: Kind, b: Body, calls: seq<Call>): (Body, seq<Answer>)
    decreases |calls|
  {
    if calls == [] then (b, [])
    else
      var (c, a) := Perform(kind, b, calls[0]);
      var (d, answers) := PerformAll(kind, c, calls[1..]);
      (d, [a] + answers)
  }

  /** Neither an empty read at the end of an open body, nor an unknown whence that the system accepts. */
  predicate Ordinary(b: Body, call: Call, kernel: Kernel) {
    b.closed ||
    match call
    case Read(n) => n > 0 || b.cursor < |b.data|
    case Seek(offset, whence) => KnownWhence(whence) || kernel(b, offset, whence).None?
    case _ => true
  }

  predicate AllOrdinary(b: Body, calls: seq<Call>, kernel: Kernel)
    decreases |calls|
  {
    calls == [] ||
    (Ordinary(b, calls[0], kernel) && AllOrdinary(Perform(Memory, b, calls[0]).0, calls[1..], kernel))
  }

  lemma CallsAgreeIff(b: Body, call: Call, kernel: Kernel)
    ensures Perform(Memory, b, call).1 == Perform(Disk(kernel), b, call).1 <==> Ordinary(b, call, kernel)
    ensures Ordinary(b, call, kernel) || !call.Seek? ==>
              Perform(Memory, b, call).0 == Perform(Disk(kernel), b, call).0
  {
    if call.Read? { ReadsAgreeIff(b, call.n); }
  }

  /** Over every run of calls, memory and disk give the same answers exactly when every call is ordinary. */
  lemma {:induction false} AnswersAgreeIff(b: Body, calls: seq<Call>, kernel: Kernel)
    ensures PerformAll(Memory, b, calls).1 == PerformAll(Disk(kernel), b, calls).1 <==>
            AllOrdinary(b, calls, kernel)
    ensures AllOrdinary(b, calls, kernel) ==> PerformAll(Memory, b, calls) == PerformAll(Disk(kernel), b, calls)
    decreases |calls|
  {
    hide Perform, Ordinary;
    if calls != [] {
      CallsAgreeIff(b, calls[0], kernel);
      var (c, a) := Perform(Memory, b, calls[0]);
      var (d, a') := Perform(Disk(kernel), b, calls[0]);
      if a == a' {
        AnswersAgreeIff(c, calls[1..], kernel);
        assert ([a] + PerformAll(Memory, c, calls[1..]).1)[1..] == PerformAll(Memory, c, calls[1..]).1;
        assert ([a] + PerformAll(Disk(kernel), c, calls[1..]).1)[1..] == PerformAll(Disk(kernel), c, calls[1..]).1;
      } else {
        assert PerformAll(Memory, b, calls).1[0] != PerformAll(Disk(kernel), b, calls).1[0];
      }
    }
  }

  /** With the three known ways to seek, both end with the same body, whatever they answered on the way. */
  lemma {:induction false} SameBodyInTheEnd(b: Body, calls: seq<Call>, kernel: Kernel)
    requires forall i :: 0 <= i < |calls| && calls[i].Seek? ==> KnownWhence(calls[i].whence)
    ensures PerformAll(Memory, b, calls).0 == PerformAll(Disk(kernel), b, calls).0
    decreases |calls|
  {
    hide Perform;
    if calls != [] {
      CallsAgreeIff(b, calls[0], kernel);
      SameBodyInTheEnd(Perform(Memory, b, calls[0]).0, calls[1..], kernel);
    }
  }

  /** The answer a closed body gives. */
  function Refusal(call: Call): Answer {
    match call
    case Read(_) => Chunk(Closed)
    case Seek(_, _) => Position(Closed)
    case GetBytes => Chunk(Closed)
    case GetReader => Reader(Closed)
    case Shut => Done
  }

  /** Once closed, a body stays as it is and refuses everything but another Close, on every run. */
  lemma {:induction false} ClosedForGood(kind: Kind, b: Body, calls: seq<Call>)
    requires b.closed
    ensures var (c, answers) := PerformAll(kind, b, calls);
            c == b && |answers| == |calls| && forall i :: 0 <= i < |calls| ==> answers[i] == Refusal(calls[i])
    decreases |calls|
  {
    if calls != [] { ClosedForGood(kind, b, calls[1..]); }
  }

  lemma CloseCloses(kind: Kind, b: Body)
    ensures Perform(kind, b, Shut) == (b.(closed := true), Done)
  {}

  // ---- reading in pieces ------------------------------------------------------------------------

  /** Everything a run of reads delivers. */
  function Drain(kind: Kind, b: Body, sizes: seq<nat>): (Body, Bytes)
    decreases |sizes|
  {
    if sizes == [] then (b, [])
    else
      var (c, out) := ReadStep(kind, b, sizes[0]);
      var (d, rest) := Drain(kind, c, sizes[1..]);
      (d, (if out.Ok? then out.value else []) + rest)
  }

  function Total(sizes: seq<nat>): nat {
    if sizes == [] then 0 else sizes[0] + Total(sizes[1..])
  }

  /** A read inside an open body, of either kind. */
  lemma ReadInside(kind: Kind, b: Body, n: nat)
    requires !b.closed && b.cursor < |b.data|
    ensures ReadStep(kind, b, n) == Take(b, n)
  {
    ReadsAgreeIff(b, n);
  }

  lemma ReadOutside(kind: Kind, b: Body, n: nat)
    requires b.closed || b.cursor >= |b.data|
    ensures var (c, out) := ReadStep(kind, b, n);
            c == b && (out.Ok? ==> out.value == [])
  {}

  /** Reads deliver the body in order, without loss or repetition, whatever their sizes and from wherever they
      start, and get as far as the sizes add up to; a closed body delivers nothing. */
  lemma {:induction false} DrainIsSlice(kind: Kind, b: Body, sizes: seq<nat>)
    ensures var (d, out) := Drain(kind, b, sizes);
            if b.closed || b.cursor >= |b.data| then d == b && out == []
            else d == b.(cursor := Min(b.cursor + Total(sizes), |b.data|)) && out == b.data[b.cursor..d.cursor]
    decreases |sizes|
  {
    hide ReadStep;
    if sizes != [] {
      var (c, out) := ReadStep(kind, b, sizes[0]);
      DrainIsSlice(kind, c, sizes[1..]);
      if b.closed || b.cursor >= |b.data| { ReadOutside(kind, b, sizes[0]); }
      if !b.closed && b.cursor < |b.data| {
        var d := Drain(kind, c, sizes[1..]).0;
        ReadInside(kind, b, sizes[0]);
        assert b.data[b.cursor..c.cursor] + b.data[c.cursor..d.cursor] == b.data[b.cursor..d.cursor];
      }
    }
  }

  /** Bytes gives what reading everything from the start would give, and so does a new reader, from any cursor. */
  lemma BytesIsDrain(kind: Kind, b: Body, sizes: seq<nat>)
    requires Total(sizes) >= |b.data|
    ensures b.closed ==> AllBytes(b) == Closed && NewReader(b) == Closed
    ensures !b.closed ==>
              AllBytes(b) == Ok(Drain(kind, SeekTo(b, 0, SEEK_START).0, sizes).1) && NewReader(b).Ok? &&
              AllBytes(b) == Ok(Drain(kind, NewReader(b).value, sizes).1)
  {
    hide Drain, Total;
    DrainIsSlice(kind, b.(cursor := 0), sizes);
    DrainIsSlice(kind, Body(b.data, 0, false), sizes);
    assert b.data[0..|b.data|] == b.data;
  }

  // ---- accounting -------------------------------------------------------------------------------

  datatype Usage = Usage(diskFiles: int, diskBytes: int, memoryBuffers: int, memoryBytes: int)

  function Opened(u: Usage, disk: bool, size: int): Usage {
    if disk then u.(diskFiles := u.diskFiles + 1, diskBytes := u.diskBytes + size)
    else u.(memoryBuffers := u.memoryBuffers + 1, memoryBytes := u.memoryBytes + size)
  }

  /** Disk counters are clamped at zero; memory counters are not. */
  function Released(u: Usage, disk: bool, size: int): Usage {
    if disk then u.(diskFiles := if u.diskFiles - 1 < 0 then 0 else u.diskFiles - 1,
                    diskBytes := if u.diskBytes - size < 0 then 0 else u.diskBytes - size)
    else u.(memoryBuffers := u.memoryBuffers - 1, memoryBytes := u.memoryBytes - size)
  }

  /** Where a storage is between the single operations on the counters: the files counter is raised and lowered
      first, the bytes counter second, and a storage can only be closed once it is open. */
  datatype Phase =
    | Opening
    | HalfOpen
    | Open
    | Closing
    | ClampFiles
    | HalfClosed
    | ClampBytes
    | Gone

  datatype Item = Item(disk: bool, size: nat, phase: Phase)

  datatype System = System(usage: Usage, items: seq<Item>)

  const START := System(Usage(0, 0, 0, 0), [])

  /** Create begins a storage and Close wins its closed flag or does nothing; Advance does the next single atomic
      operation of whatever call is at work on the item. */
  datatype Event = Create(disk: bool, size: nat) | Close(item: nat) | Advance(item: nat)

  function AddFiles(u: Usage, disk: bool, n: int): Usage {
    if disk then u.(diskFiles := u.diskFiles + n) else u.(memoryBuffers := u.memoryBuffers + n)
  }

  function AddBytes(u: Usage, disk: bool, n: int): Usage {
    if disk then u.(diskBytes := u.diskBytes + n) else u.(memoryBytes := u.memoryBytes + n)
  }

  /** The next operation on an item: only disk counters are looked at and stored over when negative. */
  function NextOperation(u: Usage, x: Item): (Usage, Phase) {
    match x.phase
    case Opening => (AddFiles(u, x.disk, 1), HalfOpen)
    case HalfOpen => (AddBytes(u, x.disk, x.size), Open)
    case Closing =>
      var v := AddFiles(u, x.disk, -1);
      (v, if x.disk && v.diskFiles < 0 then ClampFiles else HalfClosed)
    case ClampFiles => (u.(diskFiles := 0), HalfClosed)
    case HalfClosed =>
      var v := AddBytes(u, x.disk, 0 - x.size);
      (v, if x.disk && v.diskBytes < 0 then ClampBytes else Gone)
    case ClampBytes => (u.(diskBytes := 0), Gone)
    case _ => (u, x.phase)
  }

  function Rank(phase: Phase): nat {
    match phase
    case Open => 0
    case Gone => 0
    case HalfOpen => 1
    case ClampBytes => 1
    case Opening => 2
    case HalfClosed => 2
    case ClampFiles => 3
    case Closing => 4
  }

  /** All the operations left of the call at work on an item, with nothing in between. */
  function Uninterrupted(u: Usage, x: Item): Usage
    decreases Rank(x.phase)
  {
    if Rank(x.phase) == 0 then u
    else var (v, phase) := NextOperation(u, x); Uninterrupted(v, x.(phase := phase))
  }

  /** Undisturbed, the single operations make up the calls. */
  lemma CallsUninterrupted(u: Usage, disk: bool, size: nat)
    ensures Uninterrupted(u, Item(disk, size, Opening)) == Opened(u, disk, size)
    ensures Uninterrupted(u, Item(disk, size, Closing)) == Released(u, disk, size)
  {
    var v := AddFiles(u, disk, -1);
    var w := if disk && v.diskFiles < 0 then v.(diskFiles := 0) else v;
    var x := AddBytes(w, disk, 0 - size);
    OneMore(u, Item(disk, size, Opening));
    OneMore(AddFiles(u, disk, 1), Item(disk, size, HalfOpen));
    OneMore(u, Item(disk, size, Closing));
    OneMore(v, Item(disk, size, ClampFiles));
    OneMore(w, Item(disk, size, HalfClosed));
    OneMore(x, Item(disk, size, ClampBytes));
  }

  lemma OneMore(u: Usage, x: Item)
    requires Rank(x.phase) > 0
    ensures var (v, phase) := NextOperation(u, x); Uninterrupted(u, x) == Uninterrupted(v, x.(phase := phase))
  {}

  function Step(s: System, e: Event): System {
    match e
    case Create(disk, size) => s.(items := s.items + [Item(disk, size, Opening)])
    case Close(i) =>
      if i < |s.items| && s.items[i].phase.Open? then s.(items := s.items[i := s.items[i].(phase := Closing)]) else s
    case Advance(i) =>
      if i < |s.items| then
        var (u, phase) := NextOperation(s.usage, s.items[i]);
        System(u, s.items[i := s.items[i].(phase := phase)])
      else s
  }

  function Run(s: System, events: seq<Event>): System
    decreases |events|
  {
    if events == [] then s else Run(Step(s, events[0]), events[1..])
  }

  datatype Counter = Files | FileBytes

  /** What an item has in a counter of its kind. */
  function Share(x: Item, disk: bool, counter: Counter): nat {
    if x.disk != disk then 0
    else if counter.Files? then if x.phase.HalfOpen? || x.phase.Open? || x.phase.Closing? then 1 else 0
    else if x.phase.Open? || x.phase.Closing? || x.phase.ClampFiles? || x.phase.HalfClosed? then x.size else 0
  }

  function Tally(items: seq<Item>, disk: bool, counter: Counter): nat {
    if items == [] then 0
    else Tally(items[..|items| - 1], disk, counter) + Share(items[|items| - 1], disk, counter)
  }

  lemma {:induction false} TallyUpdate(items: seq<Item>, i: nat, x: Item, disk: bool, counter: Counter)
    requires i < |items|
    ensures Tally(items[i := x], disk, counter) ==
            Tally(items, disk, counter) - Share(items[i], disk, counter) + Share(x, disk, counter)
    ensures Tally(items, disk, counter) >= Share(items[i], disk, counter)
  {
    hide Share;
    var last := |items| - 1;
    if i == last {
      assert items[i := x][..last] == items[..last];
    } else {
      TallyUpdate(items[..last], i, x, disk, counter);
      assert items[i := x][..last] == items[..last][i := x];
    }
  }

  function Tallies(items: seq<Item>): Usage {
    Usage(Tally(items, true, Files), Tally(items, true, FileBytes),
          Tally(items, false, Files), Tally(items, false, FileBytes))
  }

  /** The counters hold exactly the shares of all items, and no counter is about to be stored over. */
  ghost predicate Accounted(s: System) {
    s.usage == Tallies(s.items) && forall i :: 0 <= i < |s.items| ==> !Clamping(s.items[i])
  }

  predicate Clamping(x: Item) {
    x.phase.ClampFiles? || x.phase.ClampBytes?
  }

  lemma TalliesUpdate(items: seq<Item>, i: nat, x: Item)
    requires i < |items| && x.disk == items[i].disk
    ensures forall counter :: Tally(items, x.disk, counter) >= Share(items[i], x.disk, counter)
    ensures var t, files, bytes := Tallies(items), Share(x, x.disk, Files) - Share(items[i], x.disk, Files),
                                   Share(x, x.disk, FileBytes) - Share(items[i], x.disk, FileBytes);
            Tallies(items[i := x]) == AddBytes(AddFiles(t, x.disk, files), x.disk, bytes)
  {
    hide Tally;
    TallyUpdate(items, i, x, true, Files);
    TallyUpdate(items, i, x, true, FileBytes);
    TallyUpdate(items, i, x, false, Files);
    TallyUpdate(items, i, x, false, FileBytes);
  }

  lemma TalliesNew(items: seq<Item>, x: Item)
    requires x.phase.Opening?
    ensures Tallies(items + [x]) == Tallies(items)
  {
    assert (items + [x])[..|items|] == items;
  }

  lemma StepAccounted(s: System, e: Event)
    requires Accounted(s)
    ensures Accounted(Step(s, e))
  {
    hide Tallies, Share;
    match e
    case Create(disk, size) => TalliesNew(s.items, Item(disk, size, Opening));
    case Close(i) =>
      if i < |s.items| && s.items[i].phase.Open? { ClosingChangesNothing(s.items, i); }
    case Advance(i) =>
      if i < |s.items| { AdvanceAccounted(s, i); }
  }

  lemma ClosingChangesNothing(items: seq<Item>, i: nat)
    requires i < |items| && items[i].phase.Open?
    ensures Tallies(items[i := items[i].(phase := Closing)]) == Tallies(items)
  {
    hide Tally;
    TalliesUpdate(items, i, items[i].(phase := Closing));
  }

  /** A counter that still holds the item's share does not become negative when the share is taken out. */
  lemma AdvanceAccounted(s: System, i: nat)
    requires Accounted(s) && i < |s.items|
    ensures var (u, phase) := NextOperation(s.usage, s.items[i]);
            u == Tallies(s.items[i := s.items[i].(phase := phase)]) && !Clamping(s.items[i].(phase := phase))
  {
    hide Tally;
    TalliesUpdate(s.items, i, s.items[i].(phase := NextOperation(s.usage, s.items[i]).1));
  }

  lemma {:induction false} RunAccounted(s: System, events: seq<Event>)
    requires Accounted(s)
    ensures Accounted(Run(s, events))
    decreases |events|
  {
    hide Accounted, Step;
    if events != [] {
      StepAccounted(s, events[0]);
      RunAccounted(Step(s, events[0]), events[1..]);
    }
  }

  /** A creation runs to an open storage, and a close of it to a gone one, which gives its bytes back. */
  lemma CallsRunThrough(s: System, disk: bool, size: nat)
    requires Accounted(s)
    ensures var i := |s.items|;
            var t := Run(s, [Create(disk, size)] + [Advance(i)] + [Advance(i)]);
            t.items == s.items + [Item(disk, size, Open)] && t.usage == Opened(s.usage, disk, size)
    ensures forall i :: 0 <= i < |s.items| && s.items[i].phase.Open? ==>
              var t := Run(s, [Close(i)] + [Advance(i)] + [Advance(i)]);
              t.items == s.items[i := s.items[i].(phase := Gone)] &&
              t.usage == Released(s.usage, s.items[i].disk, s.items[i].size)
  {
    hide Tallies, Accounted, NextOperation;
    RunsThree(s, Create(disk, size), Advance(|s.items|), Advance(|s.items|));
    CreateRunsThrough(s, disk, size);
    forall i | 0 <= i < |s.items| && s.items[i].phase.Open?
      ensures var t := Run(s, [Close(i)] + [Advance(i)] + [Advance(i)]);
              t.items == s.items[i := s.items[i].(phase := Gone)] &&
              t.usage == Released(s.usage, s.items[i].disk, s.items[i].size)
    {
      RunsThree(s, Close(i), Advance(i), Advance(i));
      CloseRunsThrough(s, i);
    }
  }

  lemma RunsThree(s: System, a: Event, b: Event, c: Event)
    ensures Run(s, [a] + [b] + [c]) == Step(Step(Step(s, a), b), c)
  {
    hide Step;
    assert ([a] + [b] + [c])[1..] == [b] + [c] && ([b] + [c])[1..] == [c] && [c][1..] == [];
    assert Run(Step(Step(s, a), b), [c]) == Step(Step(Step(s, a), b), c);
  }

  lemma CreateRunsThrough(s: System, disk: bool, size: nat)
    ensures var i := |s.items|;
            var t := Step(Step(Step(s, Create(disk, size)), Advance(i)), Advance(i));
            t.items == s.items + [Item(disk, size, Open)] && t.usage == Opened(s.usage, disk, size)
  {}

  lemma CloseRunsThrough(s: System, i: nat)
    requires Accounted(s) && i < |s.items| && s.items[i].phase.Open?
    ensures var t := Step(Step(Step(s, Close(i)), Advance(i)), Advance(i));
            t.items == s.items[i := s.items[i].(phase := Gone)] &&
            t.usage == Released(s.usage, s.items[i].disk, s.items[i].size)
  {
    hide Tally;
    TallyUpdate(s.items, i, s.items[i], s.items[i].disk, Files);
    TallyUpdate(s.items, i, s.items[i], s.items[i].disk, FileBytes);
  }

  /** No call is in progress. */
  ghost predicate Quiet(items: seq<Item>) {
    forall i :: 0 <= i < |items| ==> items[i].phase.Open? || items[i].phase.Gone?
  }

  function OpenCount(items: seq<Item>, disk: bool): nat {
    if items == [] then 0
    else OpenCount(items[..|items| - 1], disk) +
         if items[|items| - 1].disk == disk && items[|items| - 1].phase.Open? then 1 else 0
  }

  function OpenSize(items: seq<Item>, disk: bool): nat {
    if items == [] then 0
    else OpenSize(items[..|items| - 1], disk) +
         if items[|items| - 1].disk == disk && items[|items| - 1].phase.Open? then items[|items| - 1].size else 0
  }

  lemma {:induction false} QuietTally(items: seq<Item>, disk: bool)
    requires Quiet(items)
    ensures Tally(items, disk, Files) == OpenCount(items, disk)
    ensures Tally(items, disk, FileBytes) == OpenSize(items, disk)
  {
    if items != [] {
      var last := |items| - 1;
      assert forall i :: 0 <= i < last ==> items[..last][i] == items[i];
      QuietTally(items[..last], disk);
    }
  }

  /** In every interleaving of the single operations of any creations and repeated closes: no counter ever goes
      below zero, so none is stored over, and whenever no call is in progress the counters are the number and the
      bytes of the open storages. */
  lemma UsageIsExact(events: seq<Event>)
    ensures var s := Run(START, events);
            s.usage.diskFiles >= 0 && s.usage.diskBytes >= 0 &&
            (forall i :: 0 <= i < |s.items| ==> !Clamping(s.items[i])) &&
            (Quiet(s.items) ==> s.usage == Usage(OpenCount(s.items, true), OpenSize(s.items, true),
                                                 OpenCount(s.items, false), OpenSize(s.items, false)))
  {
    RunAccounted(START, events);
    var s := Run(START, events);
    if Quiet(s.items) {
      QuietTally(s.items, true);
      QuietTally(s.items, false);
    }
  }

  // ---- creation ---------------------------------------------------------------------------------

  /** threshold and limit are the configured sizes in bytes. */
  datatype Config = Config(enabled: bool, threshold: int, limit: int)

  predicate Available(cfg: Config, usage: Usage, size: int) {
    cfg.enabled && usage.diskBytes + size <= cfg.limit
  }

  datatype Created = Stored(data: Bytes, disk: bool) | TooLarge | DiskFailed

  function CreateFrom(cfg: Config, usage: Usage, data: Bytes, diskFails: bool): Created {
    Stored(data, cfg.enabled && |data| >= cfg.threshold && Available(cfg, usage, |data|) && !diskFails)
  }

  /** 64-bit addition as the machine does it. */
  function Wrap64(n: int): int {
    if n > MAX_INT64 then n - 0x1_0000_0000_0000_0000 else n
  }

  /** io.LimitReader: nothing at all for a limit that is not positive. */
  function Limited(input: Bytes, limit: int): Bytes {
    if limit <= 0 then [] else input[..Min(limit, |input|)]
  }

  function CreateFromReader(cfg: Config, usage: Usage, input: Bytes, contentLength: int, maxBytes: int,
                            diskFails: bool): Created
  {
    var data := Limited(input, Wrap64(maxBytes + 1));
    if cfg.enabled && contentLength > 0 && contentLength >= cfg.threshold && Available(cfg, usage, contentLength) then
      if diskFails then DiskFailed else if |data| > maxBytes then TooLarge else Stored(data, true)
    else if |data| > maxBytes then TooLarge
    else CreateFrom(cfg, usage, data, diskFails)
  }

  /** The promise: too large exactly when longer than the limit, otherwise stored byte for byte. */
  predicate Faithful(r: Created, input: Bytes, maxBytes: int) {
    if |input| > maxBytes then r.TooLarge? else r.Stored? && r.data == input
  }

  /** It is kept except at the largest 64-bit limit, where limit + 1 wraps and a non-empty body is lost. */
  lemma FaithfulIff(cfg: Config, usage: Usage, input: Bytes, contentLength: int, maxBytes: int)
    requires -MAX_INT64 - 1 <= maxBytes <= MAX_INT64 && |input| <= MAX_INT64
    ensures Faithful(CreateFromReader(cfg, usage, input, contentLength, maxBytes, false), input, maxBytes) <==>
            maxBytes < MAX_INT64 || input == []
  {}

  /** A body at hand goes to disk exactly when disk use is on, it is large enough, it fits and the disk works. */
  lemma StoredOnDiskIff(cfg: Config, usage: Usage, data: Bytes, diskFails: bool)
    ensures var r := CreateFrom(cfg, usage, data, diskFails);
            r.Stored? && r.data == data &&
            (r.disk <==> cfg.enabled && |data| >= cfg.threshold && usage.diskBytes + |data| <= cfg.limit && !diskFails)
  {}

  /** What is left of a body: everything, except at the largest limit, where the limited reader gives nothing. */
  function Arriving(input: Bytes, maxBytes: int): Bytes {
    if maxBytes == MAX_INT64 then [] else input
  }

  /** The declared length is known, large enough, and fits. */
  predicate Declared(cfg: Config, usage: Usage, contentLength: int) {
    cfg.enabled && 0 < contentLength && cfg.threshold <= contentLength <= cfg.limit - usage.diskBytes
  }

  /** A stream goes to disk by its declared length if that qualifies, and by its own length otherwise; only in the
      first case can a failing disk fail the creation. */
  lemma StreamedOnDiskIff(cfg: Config, usage: Usage, input: Bytes, contentLength: int, maxBytes: int, diskFails: bool)
    requires -MAX_INT64 - 1 <= maxBytes <= MAX_INT64 && |input| <= MAX_INT64
    ensures var r := CreateFromReader(cfg, usage, input, contentLength, maxBytes, diskFails);
            var size := |Arriving(input, maxBytes)|;
            (r.DiskFailed? <==> Declared(cfg, usage, contentLength) && diskFails) &&
            (r.TooLarge? <==> size > maxBytes && !r.DiskFailed?) &&
            (r.Stored? ==> r.data == Arriving(input, maxBytes)) &&
            (r.Stored? ==>
               (r.disk <==> !diskFails && (Declared(cfg, usage, contentLength) ||
                                           (cfg.enabled && cfg.threshold <= size <= cfg.limit - usage.diskBytes))))
  {}

  function After(usage: Usage, r: Created): Usage {
    if r.Stored? then Opened(usage, r.disk, |r.data|) else usage
  }

  /** Disk use stays within the configured limit on every creation, except that a stream which is longer than it
      declared is held to the declared length only. */
  lemma DiskWithinLimitIff(cfg: Config, usage: Usage, input: Bytes, contentLength: int, maxBytes: int, diskFails: bool)
    requires usage.diskBytes <= cfg.limit
    requires -MAX_INT64 - 1 <= maxBytes <= MAX_INT64 && |input| <= MAX_INT64
    ensures After(usage, CreateFrom(cfg, usage, input, diskFails)).diskBytes <= cfg.limit
    ensures var size := |Arriving(input, maxBytes)|;
            After(usage, CreateFromReader(cfg, usage, input, contentLength, maxBytes, diskFails)).diskBytes <= cfg.limit
            <==> !(Declared(cfg, usage, contentLength) && !diskFails && cfg.limit - usage.diskBytes < size <= maxBytes)
  {}

  /** A body of two bytes that declares one exceeds a limit of one. */
  lemma ShortDeclarationExceeds()
    ensures var cfg, usage := Config(true, 1, 1), Usage(0, 0, 0, 0);
            After(usage, CreateFromReader(cfg, usage, [0, 0], 1, 10, false)).diskBytes == 2 > cfg.limit
  {}
}
