/** The local record of an interrupted upload: when it matches a re-run, what its content
    anchor sees, and when it may be forgotten (cli/src/upload_state.rs; `upload`,
    `try_resume` and `abort_then_forget`, cli/src/commands.rs). */
module ResumeRecord {
  import opened Hashing
  import opened Encoding
  import Translog

  // ---- the content anchor --------------------------------------------------

  const ANCHOR_TAG: seq<byte> :=
    [115, 105, 103, 110, 101, 116, 58, 114, 101, 115, 117, 109, 101, 45, 97, 110, 99, 104, 111, 114, 58, 118, 49]

  function Span(size: nat, chunkSize: nat): (n: nat)
    ensures n <= size
  {
    if chunkSize <= size then chunkSize else size
  }

  function Head(content: seq<byte>, chunkSize: nat): seq<byte> {
    content[..Span(|content|, chunkSize)]
  }

  function Tail(content: seq<byte>, chunkSize: nat): seq<byte> {
    content[|content| - Span(|content|, chunkSize)..]
  }

  function AnchorInput(content: seq<byte>, chunkSize: nat): seq<byte> {
    ANCHOR_TAG + (BigEndian(8, |content|) + (Head(content, chunkSize) + Tail(content, chunkSize)))
  }

  function ContentAnchor(content: seq<byte>, chunkSize: nat): Digest {
    Sha256(Bytes(AnchorInput(content, chunkSize)))
  }

  /** The anchor binds the size, and the first and the last chunk: those and nothing else. */
  lemma AnchorSees(a: seq<byte>, b: seq<byte>, chunkSize: nat, chunkSize': nat)
    requires |a| < U64_SPAN && |b| < U64_SPAN
    ensures ContentAnchor(a, chunkSize) == ContentAnchor(b, chunkSize')
            <==> |a| == |b| && Head(a, chunkSize) == Head(b, chunkSize') && Tail(a, chunkSize) == Tail(b, chunkSize')
  {
    hide Bytes, BigEndian, Head, Tail, Pow256;
    if ContentAnchor(a, chunkSize) == ContentAnchor(b, chunkSize') {
      Translog.BytesInjective(AnchorInput(a, chunkSize), AnchorInput(b, chunkSize'));
      var ends, ends' := Head(a, chunkSize) + Tail(a, chunkSize), Head(b, chunkSize') + Tail(b, chunkSize');
      SplitEqual(ANCHOR_TAG, BigEndian(8, |a|) + ends, ANCHOR_TAG, BigEndian(8, |b|) + ends');
      SplitEqual(BigEndian(8, |a|), ends, BigEndian(8, |b|), ends');
      SizesDiffer(|a|, |b|);
      EndsAreEven(a, chunkSize);
      EndsAreEven(b, chunkSize');
      SplitEqual(Head(a, chunkSize), Tail(a, chunkSize), Head(b, chunkSize'), Tail(b, chunkSize'));
    }
  }

  lemma SizesDiffer(m: nat, n: nat)
    requires m < U64_SPAN && n < U64_SPAN && BigEndian(8, m) == BigEndian(8, n)
    ensures m == n
  {
    hide BigEndian;
    Pow256Values();
    BigEndianInjective(8, m, n);
  }

  lemma EndsAreEven(a: seq<byte>, chunkSize: nat)
    ensures |Head(a, chunkSize)| == |Tail(a, chunkSize)|
  {
  }

  /** So equal anchors mean equal content exactly for files of at most two chunks: for every
      longer file there is another of the same size and the same anchor. */
  lemma AnchorDecides(a: seq<byte>, chunkSize: nat)
    requires |a| < U64_SPAN
    ensures |a| <= 2 * chunkSize
            <==> forall b: seq<byte> ::
                |b| < U64_SPAN && ContentAnchor(b, chunkSize) == ContentAnchor(a, chunkSize) ==> b == a
  {
    hide ContentAnchor;
    if |a| <= 2 * chunkSize {
      forall b: seq<byte> | |b| < U64_SPAN && ContentAnchor(b, chunkSize) == ContentAnchor(a, chunkSize)
        ensures b == a
      {
        AnchorSees(b, a, chunkSize, chunkSize);
        EndsCover(a, b, chunkSize);
      }
    } else {
      var b := a[chunkSize := if a[chunkSize] == 0 then 1 else 0];
      assert b[chunkSize] != a[chunkSize];
      AnchorSees(b, a, chunkSize, chunkSize);
    }
  }

  lemma EndsCover(a: seq<byte>, b: seq<byte>, chunkSize: nat)
    requires |a| == |b| <= 2 * chunkSize
    requires Head(a, chunkSize) == Head(b, chunkSize) && Tail(a, chunkSize) == Tail(b, chunkSize)
    ensures a == b
  {
    var n := Span(|a|, chunkSize);
    forall i | 0 <= i < |a| ensures a[i] == b[i] {
      if i < n {
        assert a[i] == Head(a, chunkSize)[i] && b[i] == Head(b, chunkSize)[i];
      } else {
        assert a[i] == Tail(a, chunkSize)[i - (|a| - n)] && b[i] == Tail(b, chunkSize)[i - (|a| - n)];
      }
    }
  }

  // ---- finding a record ----------------------------------------------------

  datatype Destination = Destination(server: nat, folder: nat, name: nat)
  datatype Source = Source(path: nat, size: nat, modified: int, anchor: Option<Digest>)

  datatype Record = Record(fileId: nat, destination: Destination, source: Source, chunkSize: nat, chunkCount: nat)
  {
    function Shape(): Geometry {
      Geometry(chunkSize, chunkCount)
    }
  }

  /** The geometry the server holds an upload to. */
  datatype Geometry = Geometry(chunkSize: nat, chunkCount: nat)

  /** A file in the record directory; `None` when it cannot be read as a record. */
  datatype Slot = Slot(fileId: nat, record: Option<Record>)

  /** The file to upload, as a command finds it. */
  datatype File = File(path: nat, content: seq<byte>, modified: int, readable: bool)

  /** What a command takes the source to be: the anchor is over chunks of its own chunk size,
      and a file that cannot be read has none. */
  function SourceOf(file: File, chunkSize: nat): Source {
    Source(file.path, |file.content|, file.modified,
           if file.readable then Some(ContentAnchor(file.content, chunkSize)) else None)
  }

  predicate SameSource(r: Record, source: Source) {
    r.source == source && source.anchor.Some?
  }

  /** A record for the destination whose source the command does not recognise. */
  predicate Stale(slot: Slot, destination: Destination, source: Source) {
    slot.record.Some? && slot.record.value.destination == destination && !SameSource(slot.record.value, source)
  }

  predicate Matches(slot: Slot, destination: Destination, source: Source) {
    slot.record.Some? && slot.record.value.destination == destination && SameSource(slot.record.value, source)
  }

  /** Where the first match is; the length if there is none. */
  function FirstMatch(slots: seq<Slot>, destination: Destination, source: Source): (k: nat)
    ensures k <= |slots|
    ensures k < |slots| ==> Matches(slots[k], destination, source)
    ensures forall i :: 0 <= i < k ==> !Matches(slots[i], destination, source)
  {
    if slots == [] then 0
    else
      var n := |slots| - 1;
      var k := FirstMatch(slots[..n], destination, source);
      if k < n || Matches(slots[n], destination, source) then k else n + 1
  }

  function WithoutStale(slots: seq<Slot>, destination: Destination, source: Source): seq<Slot> {
    if slots == [] then []
    else
      var n := |slots| - 1;
      WithoutStale(slots[..n], destination, source) + if Stale(slots[n], destination, source) then [] else [slots[n]]
  }

  /** What a search leaves: the stale records before the first match are gone. */
  function Left(slots: seq<Slot>, destination: Destination, source: Source): seq<Slot> {
    var k := FirstMatch(slots, destination, source);
    WithoutStale(slots[..k], destination, source) + slots[k..]
  }

  /** The first record of this exact upload, and what the search leaves. */
  method FindMatch(slots: seq<Slot>, destination: Destination, source: Source)
    returns (found: Option<Record>, left: seq<Slot>)
    ensures var k := FirstMatch(slots, destination, source);
            found == (if k < |slots| then slots[k].record else None)
    ensures left == Left(slots, destination, source)
  {
    left := [];
    for k := 0 to |slots|
      invariant left == WithoutStale(slots[..k], destination, source)
      invariant forall i :: 0 <= i < k ==> !Matches(slots[i], destination, source)
    {
      var slot := slots[k];
      assert slots[..k + 1][..k] == slots[..k];
      if slot.record.None? || slot.record.value.destination != destination {
        left := left + [slot];
      } else if SameSource(slot.record.value, source) {
        assert FirstMatch(slots, destination, source) == k;
        return slot.record, left + slots[k..];
      }
    }
    assert slots[..|slots|] == slots;
    found := None;
  }

  lemma {:induction false} WithoutStaleMeans(slots: seq<Slot>, destination: Destination, source: Source, x: Slot)
    ensures x in WithoutStale(slots, destination, source) <==> x in slots && !Stale(x, destination, source)
  {
    if slots != [] {
      WithoutStaleMeans(slots[..|slots| - 1], destination, source, x);
      assert slots == slots[..|slots| - 1] + [slots[|slots| - 1]];
    }
  }

  /** No match comes before this slot. */
  ghost predicate NoneBefore(slots: seq<Slot>, destination: Destination, source: Source, x: Slot) {
    forall j :: 0 <= j < |slots| && Matches(slots[j], destination, source) ==> x in slots[..j]
  }

  /** A search drops exactly the stale records no match comes before. */
  lemma OnlyStaleIsDropped(slots: seq<Slot>, destination: Destination, source: Source, x: Slot)
    requires x in slots && forall i, j :: 0 <= i < j < |slots| ==> slots[i].fileId != slots[j].fileId
    ensures x !in Left(slots, destination, source)
            <==> Stale(x, destination, source) && NoneBefore(slots, destination, source, x)
  {
    hide Stale, Matches, WithoutStale;
    var k := FirstMatch(slots, destination, source);
    assert slots == slots[..k] + slots[k..];
    WithoutStaleMeans(slots[..k], destination, source, x);
    var at :| 0 <= at < |slots| && slots[at] == x;
    assert x in slots[..k] <==> at < k;
    if at < k {
      assert x !in slots[k..];
      forall j | 0 <= j < |slots| && Matches(slots[j], destination, source) ensures x in slots[..j] {
        assert slots[..j][at] == x;
      }
    } else {
      assert x == slots[k..][at - k];
      MatchIsNotStale(slots[k], destination, source);
    }
  }

  lemma MatchIsNotStale(x: Slot, destination: Destination, source: Source)
    ensures !(Matches(x, destination, source) && Stale(x, destination, source))
  {
  }

  /** A record is recognised exactly when both commands could read the file, and found the same
      path, time and size and the same ends, each in chunks of its own size. */
  lemma RecognisedExactly(r: Record, before: File, now: File, chunkSize: nat)
    requires r.source == SourceOf(before, r.chunkSize)
    requires |before.content| < U64_SPAN && |now.content| < U64_SPAN
    ensures SameSource(r, SourceOf(now, chunkSize))
       <==> && before.readable && now.readable && before.path == now.path && before.modified == now.modified
            && |before.content| == |now.content|
            && Head(before.content, r.chunkSize) == Head(now.content, chunkSize)
            && Tail(before.content, r.chunkSize) == Tail(now.content, chunkSize)
  {
    hide ContentAnchor, Head, Tail;
    AnchorSees(before.content, now.content, r.chunkSize, chunkSize);
  }

  /** So the record of an unchanged file that was and is readable is dropped exactly when the
      two chunk sizes span different stretches of it; one that cannot be read is always. */
  lemma UnchangedIsStale(r: Record, file: File, readable: bool, chunkSize: nat)
    requires r.source == SourceOf(file, r.chunkSize) && |file.content| < U64_SPAN
    ensures !SameSource(r, SourceOf(file.(readable := readable), chunkSize))
       <==> !file.readable || !readable || Span(|file.content|, r.chunkSize) != Span(|file.content|, chunkSize)
  {
    RecognisedExactly(r, file, file.(readable := readable), chunkSize);
    hide ContentAnchor, SourceOf;
    var n, m := Span(|file.content|, r.chunkSize), Span(|file.content|, chunkSize);
    assert |Head(file.content, r.chunkSize)| == n && |Head(file.content, chunkSize)| == m;
  }

  // ---- the record on disk --------------------------------------------------

  /** A byte of a record's text: which text it is of, how long that is, and where the byte
      stands in it. */
  datatype TextByte = TextByte(record: Record, rate: Option<real>, length: nat, at: nat)

  function Encode(record: Record, rate: Option<real>, length: nat): (text: seq<TextByte>)
    ensures |text| == length
    ensures forall i :: 0 <= i < length ==> text[i] == TextByte(record, rate, length, i)
  {
    seq(length, i requires 0 <= i < length => TextByte(record, rate, length, i))
  }

  /** What a file reads as: a record if it is one text, whole. */
  function Parse(text: seq<TextByte>): Option<(Record, Option<real>)> {
    if text != [] && text == Encode(text[0].record, text[0].rate, |text|)
    then Some((text[0].record, text[0].rate)) else None
  }

  /** A record cut short at any byte is no record; a whole one is what was written. */
  lemma CutShort(record: Record, rate: Option<real>, length: nat, k: nat)
    requires 0 < length && k <= length
    ensures Parse(Encode(record, rate, length)[..k]) == if k == length then Some((record, rate)) else None
  {
    var text := Encode(record, rate, length)[..k];
    if 0 < k < length {
      assert text[0] != Encode(record, rate, k)[0];
    }
  }

  // ---- the rate estimate ---------------------------------------------------

  const ALPHA: real := 0.4
  const MIN_CREDIBLE_RATE: real := 1024.0

  /** A finished part's rate folded into the estimate. */
  function Observed(estimate: Option<real>, bytes: nat, seconds: real): Option<real> {
    if seconds <= 0.0 || bytes == 0 || bytes as real / seconds < MIN_CREDIBLE_RATE then estimate
    else
      match estimate
      case Some(previous) => Some(ALPHA * (bytes as real / seconds) + (1.0 - ALPHA) * previous)
      case None => Some(bytes as real / seconds)
  }

  /** The estimate halved after a stalled part, or dropped. */
  function Penalized(estimate: Option<real>): Option<real> {
    if estimate.None? || estimate.value / 2.0 < MIN_CREDIBLE_RATE then None else Some(estimate.value / 2.0)
  }

  /** A part counts exactly if it was measured at a credible rate; then a first estimate is its
      rate and a later one lies between its rate and the estimate before, a stall halves it, and
      an estimate is dropped exactly when half of it is not credible. */
  lemma EstimateMoves(estimate: Option<real>, bytes: nat, seconds: real)
    ensures var counts := seconds > 0.0 && bytes > 0 && bytes as real / seconds >= 1024.0;
            var rate := if seconds > 0.0 then bytes as real / seconds else 0.0;
            var next := Observed(estimate, bytes, seconds);
            && (!counts ==> next == estimate)
            && (counts && estimate.None? ==> next == Some(rate))
            && (counts && estimate.Some? ==>
                  next.Some? && 5.0 * (next.value - estimate.value) == 2.0 * (rate - estimate.value))
    ensures estimate.Some? ==>
              (Penalized(estimate).None? <==> estimate.value < 2048.0)
              && (Penalized(estimate).Some? ==> 2.0 * Penalized(estimate).value == estimate.value)
    ensures estimate.None? ==> Penalized(estimate).None?
  {
  }

  /** A resumed upload starts from the recorded rate, if it is fresh and credible. */
  function WarmStart(recorded: Option<real>, isFresh: bool): Option<real> {
    if recorded.Some? && isFresh && recorded.value >= MIN_CREDIBLE_RATE then recorded else None
  }

  // ---- the life of a record ------------------------------------------------

  /** What a command uploads: where to, from what source, in chunks of what size. */
  datatype Job = Job(destination: Destination, source: Source, chunkSize: nat)

  /** Where the one running command is with its upload, and its estimate of the rate. */
  datatype Phase =
    | Idle
    | Found(record: Record, rate: Option<real>, job: Job)
    | Ready(job: Job)
    | Sending(record: Record, resumed: bool, estimate: Option<real>)
    | Completing(id: nat)

  /** `live` is the server's uploads in flight; `disk` the record files; `saved` every upload a
      whole record was ever written for. */
  datatype State = State(live: map<nat, Geometry>, disk: map<nat, seq<TextByte>>, phase: Phase,
                         started: set<nat>, saved: set<nat>)

  const INITIAL: State := State(map[], map[], Idle, {}, {})

  predicate Recorded(s: State, id: nat) {
    id in s.disk && Parse(s.disk[id]).Some?
  }

  function RecordOf(s: State, id: nat): Record
    requires Recorded(s, id)
  {
    Parse(s.disk[id]).value.0
  }

  /** What a finalize or an abort request came to: done and confirmed, done or not with the
      answer lost or refused, or not found. */
  datatype Reply = Confirmed | Unconfirmed(landed: bool) | NotFound

  /** How far writing a record got: the file is truncated and then so many bytes of the text are
      written, or it could not even be opened. */
  datatype Write = Unopened | Wrote(length: nat, bytes: nat)
  {
    predicate Possible() {
      Wrote? ==> 0 < length && bytes <= length
    }

    predicate Whole() {
      Wrote? && bytes == length
    }
  }

  /** `order` is the order the directory is listed in; `usable` says the server answered a
      resume with what it takes to go on, or that it has no such upload. */
  datatype Action =
    | Search(destination: Destination, file: File, chunkSize: nat, order: seq<nat>)
    | Resume(usable: bool, reported: Geometry, isFresh: bool, aborted: bool)
    | Start(id: nat, chunkCount: nat, write: Write)
    | Observe(bytes: nat, seconds: real)
    | Penalize
    | Stall(write: Write)
    | Fail(abort: Reply)
    | SentAll
    | Complete(reply: Reply)
    | Expire(id: nat)
    | Crash

  ghost predicate Lists(order: seq<nat>, disk: map<nat, seq<TextByte>>) {
    && (forall i :: 0 <= i < |order| ==> order[i] in disk)
    && (forall id :: id in disk ==> id in order)
    && (forall i, j :: 0 <= i < j < |order| ==> order[i] != order[j])
  }

  function SlotOf(disk: map<nat, seq<TextByte>>, id: nat): Slot {
    Slot(id, if id in disk && Parse(disk[id]).Some? then Some(Parse(disk[id]).value.0) else None)
  }

  function Slots(disk: map<nat, seq<TextByte>>, order: seq<nat>): (slots: seq<Slot>)
    ensures |slots| == |order|
    ensures forall i :: 0 <= i < |order| ==> slots[i] == SlotOf(disk, order[i])
  {
    seq(|order|, i requires 0 <= i < |order| => SlotOf(disk, order[i]))
  }

  /** The server says "not found" only of an upload it does not have. */
  ghost predicate Enabled(s: State, a: Action) {
    match a
    case Search(_, file, _, order) => s.phase.Idle? && |file.content| < U64_SPAN && Lists(order, s.disk)
    case Resume(_, _, _, _) => s.phase.Found?
    case Start(id, _, write) => s.phase.Ready? && id !in s.started && write.Possible()
    case Observe(_, _) => s.phase.Sending?
    case Penalize => s.phase.Sending?
    case Stall(write) => s.phase.Sending? && write.Possible()
    case Fail(abort) => s.phase.Sending? && (abort.NotFound? ==> s.phase.record.fileId !in s.live)
    case SentAll => s.phase.Sending?
    case Complete(reply) => s.phase.Completing? && (reply.NotFound? ==> s.phase.id !in s.live)
    case Expire(id) => true
    case Crash => true
  }

  /** The directory after a search, and the record found. */
  function SearchStep(s: State, job: Job, order: seq<nat>): State {
    var slots := Slots(s.disk, order);
    var left, k := Left(slots, job.destination, job.source), FirstMatch(slots, job.destination, job.source);
    s.(disk := map id | id in s.disk && SlotOf(s.disk, id) in left :: s.disk[id],
       phase := if k < |slots| && Recorded(s, order[k])
                then Found(RecordOf(s, order[k]), Parse(s.disk[order[k]]).value.1, job) else Ready(job))
  }

  function Written(s: State, record: Record, rate: Option<real>, write: Write): State
    requires write.Possible()
  {
    if write.Unopened? then s
    else s.(disk := s.disk[record.fileId := Encode(record, rate, write.length)[..write.bytes]],
            saved := if write.Whole() then s.saved + {record.fileId} else s.saved)
  }

  /** A stall writes the record again only to keep a rate: with no estimate it writes nothing. */
  function StallStep(s: State, write: Write): State
    requires s.phase.Sending? && write.Possible()
  {
    if s.phase.estimate.None? then s.(phase := Idle)
    else Written(s, s.phase.record, s.phase.estimate, write).(phase := Idle)
  }

  /** The server's geometry is not the record's, or is none. */
  predicate Disagrees(record: Record, reported: Geometry) {
    reported != record.Shape() || reported.chunkCount < 1
  }

  function ResumeStep(s: State, usable: bool, reported: Geometry, isFresh: bool, aborted: bool): State
    requires s.phase.Found?
  {
    var record, id := s.phase.record, s.phase.record.fileId;
    if !usable then s.(phase := Idle)
    else if id !in s.live then s.(disk := s.disk - {id}, phase := Ready(s.phase.job))
    else if Disagrees(record, reported) then
      s.(disk := s.disk - {id}, live := if aborted then s.live - {id} else s.live, phase := Ready(s.phase.job))
    else s.(phase := Sending(record, true, WarmStart(s.phase.rate, isFresh)))
  }

  function StartStep(s: State, id: nat, chunkCount: nat, write: Write): State
    requires s.phase.Ready? && write.Possible()
  {
    var job := s.phase.job;
    var record := Record(id, job.destination, job.source, job.chunkSize, chunkCount);
    Written(s.(live := s.live[id := record.Shape()], started := s.started + {id},
               phase := Sending(record, false, None)),
            record, None, write)
  }

  function Step(s: State, a: Action): State
    requires Enabled(s, a)
  {
    match a
    case Search(destination, file, chunkSize, order) =>
      SearchStep(s, Job(destination, SourceOf(file, chunkSize), chunkSize), order)
    case Resume(usable, reported, isFresh, aborted) => ResumeStep(s, usable, reported, isFresh, aborted)
    case Start(id, chunkCount, write) => StartStep(s, id, chunkCount, write)
    case Observe(bytes, seconds) =>
      s.(phase := s.phase.(estimate := Observed(s.phase.estimate, bytes, seconds)))
    case Penalize => s.(phase := s.phase.(estimate := Penalized(s.phase.estimate)))
    case Stall(write) => StallStep(s, write)
    case Fail(abort) =>
      var id := s.phase.record.fileId;
      if s.phase.resumed then s.(phase := Idle)
      else if abort.Confirmed? then s.(phase := Idle, live := s.live - {id}, disk := s.disk - {id})
      else s.(phase := Idle, live := if abort.Unconfirmed? && abort.landed then s.live - {id} else s.live)
    case SentAll => s.(phase := Completing(s.phase.record.fileId))
    case Complete(reply) =>
      var id := s.phase.id;
      if reply.Unconfirmed? then s.(phase := Idle, live := if reply.landed then s.live - {id} else s.live)
      else s.(phase := Idle, live := s.live - {id}, disk := s.disk - {id})
    case Expire(id) => s.(live := s.live - {id})
    case Crash => s.(phase := Idle)
  }

  ghost predicate IsRun(states: seq<State>, actions: seq<Action>) {
    && |states| == |actions| + 1 && states[0] == INITIAL
    && forall i :: 0 <= i < |actions| ==> Enabled(states[i], actions[i]) && states[i + 1] == Step(states[i], actions[i])
  }

  // ---- what every step keeps -----------------------------------------------

  /** Records are of uploads that were started, under their own names, and as the server has
      them; and an upload in hand that was ever recorded still is. */
  ghost predicate Kept(s: State) {
    && s.saved <= s.started && s.live.Keys <= s.started && s.disk.Keys <= s.started
    && (forall id: nat :: id in s.disk ==> TextFits(s.disk[id], id, s.saved, s.live))
    && match s.phase
       case Found(record, rate, _) =>
         record.fileId in s.disk && Parse(s.disk[record.fileId]) == Some((record, rate))
       case Sending(record, _, _) =>
         && record.fileId in s.started
         && (record.fileId in s.saved ==> Recorded(s, record.fileId))
         && (record.fileId in s.live ==> s.live[record.fileId] == record.Shape())
       case _ => true
  }

  ghost predicate TextFits(text: seq<TextByte>, id: nat, saved: set<nat>, live: map<nat, Geometry>) {
    Parse(text).Some? ==>
      var r := Parse(text).value.0;
      id in saved && r.fileId == id && (id in live ==> live[id] == r.Shape())
  }

  /** Writing a record, whole or not, of an upload that was started. */
  lemma WriteKeeps(s: State, record: Record, rate: Option<real>, write: Write)
    requires Kept(s) && write.Possible() && s.phase == Idle && record.fileId in s.started
    requires record.fileId in s.live ==> s.live[record.fileId] == record.Shape()
    ensures Kept(Written(s, record, rate, write))
    ensures record.fileId in Written(s, record, rate, write).saved - s.saved ==>
              Recorded(Written(s, record, rate, write), record.fileId)
  {
    hide Parse, Encode;
    if write.Wrote? {
      CutShort(record, rate, write.length, write.bytes);
    }
  }

  lemma StartKeeps(s: State, a: Action)
    requires a.Start? && Enabled(s, a) && Kept(s)
    ensures Kept(Step(s, a))
  {
    hide Parse, Encode;
    var job := s.phase.job;
    var record := Record(a.id, job.destination, job.source, job.chunkSize, a.chunkCount);
    var s' := s.(live := s.live[a.id := record.Shape()], started := s.started + {a.id}, phase := Idle);
    WriteKeeps(s', record, None, a.write);
    assert Step(s, a) == Written(s', record, None, a.write).(phase := Sending(record, false, None));
  }

  lemma SearchKeeps(s: State, a: Action)
    requires a.Search? && Enabled(s, a) && Kept(s)
    ensures Kept(Step(s, a))
  {
    hide Parse, Encode, Left, SourceOf, Stale;
    var source := SourceOf(a.file, a.chunkSize);
    var slots := Slots(s.disk, a.order);
    var k := FirstMatch(slots, a.destination, source);
    if k < |slots| {
      SlotsDiffer(s.disk, a.order);
      OnlyStaleIsDropped(slots, a.destination, source, slots[k]);
      MatchIsNotStale(slots[k], a.destination, source);
    }
  }

  lemma SlotsDiffer(disk: map<nat, seq<TextByte>>, order: seq<nat>)
    requires Lists(order, disk)
    ensures forall i, j :: 0 <= i < j < |order| ==> Slots(disk, order)[i].fileId != Slots(disk, order)[j].fileId
  {
  }

  lemma StepKeeps(s: State, a: Action)
    requires Enabled(s, a) && Kept(s)
    ensures Kept(Step(s, a))
  {
    hide Parse, Encode, SearchStep;
    if a.Start? {
      StartKeeps(s, a);
    } else if a.Search? {
      SearchKeeps(s, a);
    } else if a.Stall? && s.phase.estimate.Some? {
      WriteKeeps(s.(phase := Idle), s.phase.record, s.phase.estimate, a.write);
    }
  }

  lemma {:induction false} KeptOverRuns(states: seq<State>, actions: seq<Action>, k: nat)
    requires IsRun(states, actions) && k < |states|
    ensures Kept(states[k])
    decreases k
  {
    if k > 0 {
      KeptOverRuns(states, actions, k - 1);
      hide Kept, Enabled, Step;
      StepKeeps(states[k - 1], actions[k - 1]);
    }
  }

  // ---- when a record is lost -----------------------------------------------

  /** The steps that lose a record: a search that does not recognise the source and meets no
      match first; a resume the server refuses or disagrees with; a confirmed abort of an upload
      this command started; a finalize confirmed or not found; and a stall with an estimate to
      keep whose write is cut short. */
  ghost predicate LostBy(s: State, a: Action, id: nat)
    requires Recorded(s, id)
  {
    match a
    case Search(destination, file, chunkSize, order) =>
      && RecordOf(s, id).destination == destination && !SameSource(RecordOf(s, id), SourceOf(file, chunkSize))
      && NoneBefore(Slots(s.disk, order), destination, SourceOf(file, chunkSize), SlotOf(s.disk, id))
    case Resume(usable, reported, _, _) =>
      && s.phase.Found? && s.phase.record.fileId == id && usable
      && (id !in s.live || reported != s.live[id] || reported.chunkCount < 1)
    case Fail(abort) => s.phase.Sending? && s.phase.record.fileId == id && !s.phase.resumed && abort.Confirmed?
    case Complete(reply) => s.phase.Completing? && s.phase.id == id && !reply.Unconfirmed?
    case Stall(write) =>
      s.phase.Sending? && s.phase.record.fileId == id && s.phase.estimate.Some? && write.Wrote? && !write.Whole()
    case _ => false
  }

  lemma SearchLoses(s: State, a: Action, id: nat)
    requires a.Search? && Enabled(s, a) && Recorded(s, id)
    ensures !Recorded(Step(s, a), id) <==> LostBy(s, a, id)
    ensures Recorded(Step(s, a), id) ==> RecordOf(Step(s, a), id) == RecordOf(s, id)
  {
    hide Parse, Encode, Left, SourceOf, NoneBefore, FirstMatch;
    SlotsDiffer(s.disk, a.order);
    var at :| 0 <= at < |a.order| && a.order[at] == id;
    assert Slots(s.disk, a.order)[at] == SlotOf(s.disk, id);
    OnlyStaleIsDropped(Slots(s.disk, a.order), a.destination, SourceOf(a.file, a.chunkSize), SlotOf(s.disk, id));
  }

  /** One step loses a record exactly so. */
  lemma LosesExactly(s: State, a: Action, id: nat)
    requires Enabled(s, a) && Kept(s) && Recorded(s, id)
    ensures !Recorded(Step(s, a), id) <==> LostBy(s, a, id)
  {
    hide Parse, Encode, SearchStep, NoneBefore, SourceOf;
    if a.Search? {
      SearchLoses(s, a, id);
    } else if a.Stall? && a.write.Wrote? {
      CutShort(s.phase.record, s.phase.estimate, a.write.length, a.write.bytes);
    }
  }

  lemma StaysLost(s: State, a: Action, id: nat)
    requires Enabled(s, a) && Kept(s) && id in s.saved && !Recorded(s, id)
    ensures id in Step(s, a).saved && !Recorded(Step(s, a), id)
  {
    hide Parse, Encode, Left, FirstMatch;
  }

  /** A step that loses the record of `id`. */
  ghost predicate Loses(states: seq<State>, actions: seq<Action>, k: int, id: nat) {
    0 <= k < |actions| && |actions| < |states| && Recorded(states[k], id) && LostBy(states[k], actions[k], id)
  }

  /** Over every run: a record is gone exactly if some step since has lost it; and what is lost
      stays lost. */
  lemma {:induction false} LostOnlyWhen(states: seq<State>, actions: seq<Action>, i: nat, j: nat, id: nat)
    requires IsRun(states, actions) && i <= j < |states| && Recorded(states[i], id)
    ensures !Recorded(states[j], id) <==> exists k | i <= k < j :: Loses(states, actions, k, id)
    ensures id in states[j].saved
    decreases j
  {
    hide Recorded, Enabled, Step, LostBy, Kept;
    KeptOverRuns(states, actions, i);
    RecordedIsSaved(states[i], id);
    if i < j {
      LostOnlyWhen(states, actions, i, j - 1, id);
      KeptOverRuns(states, actions, j - 1);
      var s, a := states[j - 1], actions[j - 1];
      if Recorded(s, id) {
        LosesExactly(s, a, id);
        SavedGrows(s, a);
        assert LostBy(s, a, id) <==> Loses(states, actions, j - 1, id);
      } else {
        StaysLost(s, a, id);
      }
    }
  }

  lemma RecordedIsSaved(s: State, id: nat)
    requires Kept(s) && Recorded(s, id)
    ensures id in s.saved
  {
    hide Parse;
    assert TextFits(s.disk[id], id, s.saved, s.live);
  }

  lemma SavedGrows(s: State, a: Action)
    requires Enabled(s, a)
    ensures s.saved <= Step(s, a).saved
  {
    hide Parse, Encode, Left, FirstMatch;
  }

  /** A step that loses the record of an upload and leaves the upload. */
  ghost predicate Forgets(states: seq<State>, actions: seq<Action>, k: int, id: nat) {
    && Loses(states, actions, k, id)
    && (actions[k].Search? || actions[k].Stall? || (actions[k].Resume? && id in states[k].live && !actions[k].aborted))
  }

  lemma ForgottenOrGone(s: State, a: Action, id: nat)
    requires Enabled(s, a) && Kept(s) && Recorded(s, id) && LostBy(s, a, id) && id in Step(s, a).live
    ensures id in s.live && (a.Search? || a.Stall? || (a.Resume? && !a.aborted))
  {
    hide Parse, Encode, Left, FirstMatch, NoneBefore, SourceOf;
  }

  /** An upload newly recorded or newly live has its record. */
  lemma NewlyLive(s: State, a: Action, id: nat)
    requires Enabled(s, a) && Kept(s) && id in Step(s, a).saved && id in Step(s, a).live
    requires id !in s.saved || id !in s.live
    ensures Recorded(Step(s, a), id)
  {
    hide Parse, Encode, Left, FirstMatch;
    if a.Start? && a.write.Wrote? {
      var job := s.phase.job;
      var record := Record(a.id, job.destination, job.source, job.chunkSize, a.chunkCount);
      CutShort(record, None, a.write.length, a.write.bytes);
    } else if a.Stall? && a.write.Wrote? {
      CutShort(s.phase.record, s.phase.estimate, a.write.length, a.write.bytes);
    }
  }

  /** Over every run: an upload that was recorded and is still live has no record exactly if
      some search, stall or resume has forgotten it; so no crash, failed finalize or unconfirmed
      abort ever costs a resume. */
  lemma {:induction false} LiveUploadsStayResumable(states: seq<State>, actions: seq<Action>, k: nat, id: nat)
    requires IsRun(states, actions) && k < |states| && id in states[k].saved && id in states[k].live
    ensures !Recorded(states[k], id) <==> exists j | 0 <= j < k :: Forgets(states, actions, j, id)
    decreases k
  {
    hide Recorded, Enabled, Step, LostBy, Kept;
    if k == 0 {
      assert false;
    } else {
      var s, a := states[k - 1], actions[k - 1];
      KeptOverRuns(states, actions, k - 1);
      if j :| 0 <= j < k && Forgets(states, actions, j, id) {
        LostOnlyWhen(states, actions, j, k, id);
      }
      if id !in s.saved || id !in s.live {
        NewlyLive(s, a, id);
      } else if Recorded(s, id) {
        LosesExactly(s, a, id);
        if LostBy(s, a, id) {
          ForgottenOrGone(s, a, id);
          assert Forgets(states, actions, k - 1, id);
        }
      } else {
        LiveUploadsStayResumable(states, actions, k - 1, id);
        StaysLost(s, a, id);
      }
    }
  }

  /** The search for an unchanged file drops its record exactly if the file cannot be read, or
      the two chunk sizes span different stretches of it and no match comes first; an unreadable
      file always loses it, and otherwise the search finds a record to resume. */
  lemma UnchangedIsDropped(s: State, a: Action, id: nat, file: File)
    requires a.Search? && Enabled(s, a) && Recorded(s, id)
    requires file.readable && a.file == file.(readable := a.file.readable)
    requires var r := RecordOf(s, id); r.destination == a.destination && r.source == SourceOf(file, r.chunkSize)
    ensures var n, slots := |file.content|, Slots(s.disk, a.order);
            var respanned := Span(n, RecordOf(s, id).chunkSize) != Span(n, a.chunkSize);
            var first := NoneBefore(slots, a.destination, SourceOf(a.file, a.chunkSize), SlotOf(s.disk, id));
            && (a.file.readable ==> (!Recorded(Step(s, a), id) <==> respanned && first))
            && (a.file.readable && !respanned ==> Step(s, a).phase.Found?)
            && (!a.file.readable ==> !Recorded(Step(s, a), id) && Step(s, a).phase.Ready?)
  {
    hide Parse, Encode, Left, Span, ContentAnchor;
    var r, source, slots := RecordOf(s, id), SourceOf(a.file, a.chunkSize), Slots(s.disk, a.order);
    UnchangedIsStale(r, file, a.file.readable, a.chunkSize);
    SearchLoses(s, a, id);
    var at :| 0 <= at < |a.order| && a.order[at] == id;
    assert slots[at] == SlotOf(s.disk, id);
    if !a.file.readable {
      assert forall x: Slot :: !Matches(x, a.destination, source);
    } else if SameSource(r, source) {
      assert Matches(slots[at], a.destination, source);
    }
  }

  /** A search finds a record exactly when one is of its destination and source; what it found is
      on the disk, and otherwise a fresh upload is next. */
  lemma SearchFinds(s: State, a: Action)
    requires a.Search? && Enabled(s, a)
    ensures var job := Job(a.destination, SourceOf(a.file, a.chunkSize), a.chunkSize);
            match Step(s, a).phase
            case Found(record, rate, j) =>
              && j == job && record.destination == a.destination && SameSource(record, job.source)
              && exists id :: id in s.disk && Parse(s.disk[id]) == Some((record, rate))
            case Ready(j) =>
              && j == job
              && forall id: nat :: Recorded(s, id) && RecordOf(s, id).destination == a.destination ==>
                   !SameSource(RecordOf(s, id), job.source)
            case _ => false
  {
    hide Parse, Encode, Left, SourceOf, SameSource;
    var slots := Slots(s.disk, a.order);
    var k := FirstMatch(slots, a.destination, SourceOf(a.file, a.chunkSize));
    if k == |slots| {
      forall id: nat | Recorded(s, id) && RecordOf(s, id).destination == a.destination
        ensures !SameSource(RecordOf(s, id), SourceOf(a.file, a.chunkSize))
      {
        var at :| 0 <= at < |a.order| && a.order[at] == id;
        assert !Matches(slots[at], a.destination, SourceOf(a.file, a.chunkSize));
      }
    } else {
      assert Matches(slots[k], a.destination, SourceOf(a.file, a.chunkSize));
    }
  }

  /** A resume goes on with the record it found, and its geometry, exactly when the server has
      the upload and agrees; without a usable answer the command ends, and otherwise a fresh
      upload of the same job is next. */
  lemma ResumeGoesOn(s: State, a: Action)
    requires a.Resume? && Enabled(s, a) && Kept(s)
    ensures var id, s' := s.phase.record.fileId, Step(s, a);
            && Recorded(s, id) && RecordOf(s, id) == s.phase.record
            && if !a.usable then s' == s.(phase := Idle)
               else if id in s.live && a.reported == s.live[id] && a.reported.chunkCount >= 1 then
                 && s'.disk == s.disk && s'.live == s.live && s'.phase.Sending?
                 && s'.phase.record == RecordOf(s, id) && s'.phase.resumed
                 && (s'.phase.estimate.Some? <==>
                       a.isFresh && s.phase.rate.Some? && s.phase.rate.value >= MIN_CREDIBLE_RATE)
                 && (s'.phase.estimate.Some? ==> s'.phase.estimate == s.phase.rate)
               else s'.phase == Ready(s.phase.job) && !Recorded(s', id)
  {
    hide Parse, Encode;
  }

  /** A fresh upload is of the job the search left, and recorded exactly if its record was written
      whole; a stall, a failure, a finalize and a crash end the command, whatever comes of them. */
  lemma CommandMoves(s: State, a: Action)
    requires Enabled(s, a)
    ensures var s' := Step(s, a);
            match a
            case Start(id, chunkCount, write) =>
              var job := s.phase.job;
              var record := Record(id, job.destination, job.source, job.chunkSize, chunkCount);
              && s'.phase == Sending(record, false, None)
              && s'.live == s.live[id := Geometry(job.chunkSize, chunkCount)] && s'.started == s.started + {id}
              && (write.Wrote? ==> (Recorded(s', id) <==> write.Whole()))
              && (write.Whole() ==> Parse(s'.disk[id]) == Some((record, None)))
            case SentAll => s' == s.(phase := Completing(s.phase.record.fileId))
            case Stall(_) => s'.phase == Idle && s'.live == s.live
            case Fail(abort) =>
              var id := s.phase.record.fileId;
              && s'.phase == Idle && s'.live - {id} == s.live - {id}
              && (id in s'.live <==>
                    id in s.live && (s.phase.resumed || !(abort.Confirmed? || abort == Unconfirmed(true))))
            case Complete(reply) =>
              && s'.phase == Idle && s'.live - {s.phase.id} == s.live - {s.phase.id}
              && (s.phase.id in s'.live <==> s.phase.id in s.live && reply == Unconfirmed(false))
            case Crash => s' == s.(phase := Idle)
            case Expire(id) => s' == s.(live := s.live - {id})
            case Observe(bytes, seconds) =>
              s' == s.(phase := s.phase.(estimate := Observed(s.phase.estimate, bytes, seconds)))
            case Penalize => s' == s.(phase := s.phase.(estimate := Penalized(s.phase.estimate)))
            case _ => true
  {
    hide Parse, Encode, SearchStep;
    if a.Start? && a.write.Wrote? {
      var job := s.phase.job;
      CutShort(Record(a.id, job.destination, job.source, job.chunkSize, a.chunkCount), None, a.write.length,
               a.write.bytes);
    }
  }

  /** At one input: ten bytes recorded in chunks of four, the command cut off, and run again in
      chunks of five. The upload is live, the file is the same, and the record is gone. */
  lemma ChunkSizeForgets() returns (states: seq<State>, actions: seq<Action>)
    ensures IsRun(states, actions) && |actions| == 4
    ensures actions[0].Search? && actions[3] == actions[0].(chunkSize := 5, order := [7]) && actions[0].file.readable
    ensures Recorded(states[3], 7) && !Recorded(states[4], 7) && 7 in states[4].live && states[4].phase.Ready?
  {
    hide Parse, Encode, SearchStep, ContentAnchor;
    var file := File(1, seq(10, _ => 0), 0, true);
    var target := Destination(1, 2, 3);
    actions := [Search(target, file, 4, []), Start(7, 3, Wrote(400, 400)), Crash, Search(target, file, 5, [7])];
    var s1 := Step(INITIAL, actions[0]);
    EmptySearch(Job(target, SourceOf(file, 4), 4));
    var record := Record(7, target, SourceOf(file, 4), 4, 3);
    CutShort(record, None, 400, 400);
    assert Encode(record, None, 400)[..400] == Encode(record, None, 400);
    var s2 := Step(s1, actions[1]);
    var s3 := Step(s2, actions[2]);
    assert s3.disk.Keys == {7};
    assert Enabled(s3, actions[3]);
    UnchangedIsDropped(s3, actions[3], 7, file);
    UnchangedIsStale(record, file, true, 5);
    SearchLoses(s3, actions[3], 7);
    states := [INITIAL, s1, s2, s3, Step(s3, actions[3])];
    assert NoneBefore(Slots(s3.disk, [7]), target, SourceOf(file, 5), SlotOf(s3.disk, 7)) by {
      assert Slots(s3.disk, [7])[0] == SlotOf(s3.disk, 7);
    }
    SearchOne(s3, Job(target, SourceOf(file, 5), 5), 7);
  }

  lemma EmptySearch(job: Job)
    ensures SearchStep(INITIAL, job, []) == INITIAL.(phase := Ready(job))
  {
  }

  lemma SearchOne(s: State, job: Job, id: nat)
    requires s.disk.Keys == {id} && !Matches(SlotOf(s.disk, id), job.destination, job.source)
    ensures SearchStep(s, job, [id]).phase == Ready(job) && SearchStep(s, job, [id]).live == s.live
  {
    hide Parse, Matches, Left;
  }

  /** A stall can lose the record it finds exactly when the upload has an estimate of its rate. */
  lemma StallLosesExactly(s: State)
    requires s.phase.Sending? && Recorded(s, s.phase.record.fileId)
    ensures (exists write: Write :: write.Possible() && !Recorded(Step(s, Stall(write)), s.phase.record.fileId))
            <==> s.phase.estimate.Some?
  {
    if s.phase.estimate.Some? {
      CutShort(s.phase.record, s.phase.estimate, 1, 0);
      assert Wrote(1, 0).Possible() && !Recorded(Step(s, Stall(Wrote(1, 0))), s.phase.record.fileId);
    }
  }

  // ---- where an estimate comes from ----------------------------------------

  ghost predicate Carries(disk: map<nat, seq<TextByte>>, id: nat) {
    id in disk && Parse(disk[id]).Some? && Parse(disk[id]).value.1.Some?
  }

  /** The upload in hand has an estimate, or some record carries a rate. */
  ghost predicate HasRate(s: State) {
    || (s.phase.Sending? && s.phase.estimate.Some?)
    || (s.phase.Found? && s.phase.rate.Some?)
    || exists id :: Carries(s.disk, id)
  }

  lemma RateComesFrom(s: State, a: Action)
    requires Enabled(s, a) && !HasRate(s)
    ensures HasRate(Step(s, a)) ==>
              a.Observe? && a.seconds > 0.0 && a.bytes as real / a.seconds >= MIN_CREDIBLE_RATE
  {
    hide Parse, Encode, Left, FirstMatch;
    var s' := Step(s, a);
    if a.Start? && a.write.Wrote? {
      var job := s.phase.job;
      CutShort(Record(a.id, job.destination, job.source, job.chunkSize, a.chunkCount), None,
               a.write.length, a.write.bytes);
    }
    assert forall id :: Carries(s'.disk, id) ==> Carries(s.disk, id);
    if a.Search? && s'.phase.Found? {
      var k := FirstMatch(Slots(s.disk, a.order), a.destination, SourceOf(a.file, a.chunkSize));
      assert !Carries(s.disk, a.order[k]);
    }
  }

  /** Over every run, a stall loses no record before a part has been measured at a credible
      rate: the estimate comes from one, in this command or an earlier. */
  lemma {:induction false} RatesAreMeasured(states: seq<State>, actions: seq<Action>, k: nat)
    requires IsRun(states, actions) && k < |states| && HasRate(states[k])
    ensures exists j | 0 <= j < k :: actions[j].Observe? && actions[j].seconds > 0.0
                                     && actions[j].bytes as real / actions[j].seconds >= MIN_CREDIBLE_RATE
    decreases k
  {
    hide HasRate, Enabled, Step;
    if k == 0 {
      StartsWithout();
      assert false;
    } else if HasRate(states[k - 1]) {
      RatesAreMeasured(states, actions, k - 1);
    } else {
      RateComesFrom(states[k - 1], actions[k - 1]);
    }
  }

  lemma StartsWithout()
    ensures !HasRate(INITIAL)
  {
  }

  /** And one can be lost: an upload started, recorded, one part measured, the next failed and
      the estimate halved, and the record cut short; it is live and not recorded. */
  lemma TornStallForgets(target: Destination, file: File, chunkSize: nat, chunkCount: nat)
    returns (states: seq<State>, actions: seq<Action>)
    requires |file.content| < U64_SPAN
    ensures IsRun(states, actions) && |actions| == 5 && actions[3] == Penalize
    ensures 7 in states[5].saved && 7 in states[5].live && !Recorded(states[5], 7)
  {
    hide Parse, Encode, SearchStep, SourceOf;
    actions := [Search(target, file, chunkSize, []), Start(7, chunkCount, Wrote(400, 400)),
                Observe(1_048_576, 1.0), Penalize, Stall(Wrote(420, 2))];
    var s1 := Step(INITIAL, actions[0]);
    EmptySearch(Job(target, SourceOf(file, chunkSize), chunkSize));
    var s2 := Step(s1, actions[1]);
    var s3 := Step(s2, actions[2]);
    var s4 := Step(s3, actions[3]);
    CutShort(s4.phase.record, s4.phase.estimate, 420, 2);
    states := [INITIAL, s1, s2, s3, s4, Step(s4, actions[4])];
  }
}
