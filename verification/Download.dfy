/** The sliding-window download (`download_file`, cli/src/commands.rs): generations of
    workers take pending chunks off one cursor, open each before writing it at its own
    offset, and a rejected address earns a fresh one only while chunks keep landing. */
module Download {
  import opened Hashing
  import opened Layout

  /** `count` and `stride` are what the server reports. `plain` is what the key opens at an
      index under that count, whatever storage answers: nothing, or the one plaintext. */
  datatype Job = Job(count: nat, stride: nat, concurrency: nat, plain: nat -> Option<seq<byte>>)

  const STALE_REFRESH_BUDGET: nat := 3

  datatype Failure = Rejected | Other(code: nat)

  datatype Ending = Storage(failure: Failure) | StaleAddress | RefreshRefused | Incomplete | NotRenamed

  datatype Worker =
    | AtTop
    | Claimed(slot: nat)
    | Wrote(slot: nat)
    | Flagged(slot: nat)
    | Added(slot: nat)
    | Failing(slot: nat, failure: Failure)
    | Raising
    | Exited

  datatype Phase = Planning | Running | Committed | GaveUp(why: Ending)

  /** `refreshes` counts the fresh addresses obtained; the fields from `pending` on belong to
      the generation in hand. */
  datatype State = State(
    file: seq<byte>,
    completed: seq<bool>,
    done: nat,
    written: nat,
    stale: nat,
    refreshes: nat,
    phase: Phase,
    pending: seq<nat>,
    doneBefore: nat,
    cursor: nat,
    aborting: bool,
    firstError: Option<(nat, Failure)>,
    workers: seq<Worker>)

  function Initial(job: Job): State {
    State([], seq(job.count, i => false), 0, 0, 0, 0, Planning, [], 0, 0, false, None, [])
  }

  // ---- steps ---------------------------------------------------------------

  /** One atomic step of one thread. A worker may miss that `aborting` is up, but never sees
      it up before it is. A failure may leave the first `torn` bytes of its chunk behind. */
  datatype Action =
    | Plan(renamed: bool)
    | Leave(w: nat)
    | Claim(w: nat)
    | Write(w: nat)
    | Fail(w: nat, failure: Failure, torn: nat)
    | Flag(w: nat)
    | AddLength(w: nat)
    | AddDone(w: nat)
    | Record(w: nat)
    | Raise(w: nat)
    | Join(refused: bool)

  /** The chunks not yet completed, in order. */
  function Pending(completed: seq<bool>): seq<nat> {
    if completed == [] then []
    else
      var n := |completed| - 1;
      Pending(completed[..n]) + if completed[n] then [] else [n]
  }

  /** A positioned write; the gap before it, if any, reads as zeros. */
  function WriteAt(file: seq<byte>, offset: nat, data: seq<byte>): seq<byte> {
    if data == [] then file
    else if |file| <= offset then file + seq(offset - |file|, i => 0) + data
    else if |file| <= offset + |data| then file[..offset] + data
    else file[..offset] + data + file[offset + |data|..]
  }

  function Window(job: Job, pending: seq<nat>): nat {
    var n := if job.concurrency <= |pending| then job.concurrency else |pending|;
    if n >= 1 then n else 1
  }

  /** Whether a generation ended by a rejected address earns a fresh one, and the count of
      rejections in a row without progress. */
  function RefreshDecision(progressed: bool, stale: nat): (bool, nat) {
    if progressed then (true, 0) else (stale + 1 < STALE_REFRESH_BUDGET, stale + 1)
  }

  predicate At(s: State, w: nat) {
    s.phase == Running && w < |s.workers|
  }

  /** The chunk a slot of this generation stands for. */
  function ChunkAt(s: State, slot: nat): nat {
    if slot < |s.pending| then s.pending[slot] else 0
  }

  predicate Enabled(job: Job, s: State, a: Action) {
    match a
    case Plan(_) => s.phase == Planning
    case Leave(w) => At(s, w) && s.workers[w] == AtTop && s.aborting
    case Claim(w) => At(s, w) && s.workers[w] == AtTop
    case Write(w) => At(s, w) && s.workers[w].Claimed? && job.plain(ChunkAt(s, s.workers[w].slot)).Some?
    case Fail(w, _, torn) =>
      && At(s, w) && s.workers[w].Claimed?
      && var p := job.plain(ChunkAt(s, s.workers[w].slot)); torn <= if p.Some? then |p.value| else 0
    case Flag(w) => At(s, w) && s.workers[w].Wrote?
    case AddLength(w) => At(s, w) && s.workers[w].Flagged?
    case AddDone(w) => At(s, w) && s.workers[w].Added?
    case Record(w) => At(s, w) && s.workers[w].Failing?
    case Raise(w) => At(s, w) && s.workers[w].Raising?
    case Join(_) => s.phase == Running && forall i :: 0 <= i < |s.workers| ==> s.workers[i] == Exited
  }

  function PlanStep(job: Job, s: State, renamed: bool): State {
    var pending := Pending(s.completed);
    if pending != [] then
      s.(phase := Running, pending := pending, doneBefore := s.done, cursor := 0, aborting := false,
         firstError := None, workers := seq(Window(job, pending), i => AtTop))
    else if s.done != job.count then s.(phase := GaveUp(Incomplete))
    else s.(phase := if renamed then Committed else GaveUp(NotRenamed))
  }

  function JoinStep(s: State, refused: bool): State {
    match s.firstError
    case None => s.(phase := Planning)
    case Some((_, Other(code))) => s.(phase := GaveUp(Storage(Other(code))))
    case Some((_, Rejected)) =>
      var (granted, stale) := RefreshDecision(s.done > s.doneBefore, s.stale);
      if !granted then s.(phase := GaveUp(StaleAddress), stale := stale)
      else if refused then s.(phase := GaveUp(RefreshRefused), stale := stale)
      else s.(phase := Planning, stale := stale, refreshes := s.refreshes + 1)
  }

  function Step(job: Job, s: State, a: Action): State
    requires Enabled(job, s, a)
  {
    match a
    case Plan(renamed) => PlanStep(job, s, renamed)
    case Leave(w) => s.(workers := s.workers[w := Exited])
    case Claim(w) =>
      s.(cursor := s.cursor + 1,
         workers := s.workers[w := if s.cursor < |s.pending| then Claimed(s.cursor) else Exited])
    case Write(w) =>
      var slot := s.workers[w].slot;
      var i := ChunkAt(s, slot);
      s.(file := WriteAt(s.file, i * job.stride, job.plain(i).value), workers := s.workers[w := Wrote(slot)])
    case Fail(w, failure, torn) =>
      var slot := s.workers[w].slot;
      var i := ChunkAt(s, slot);
      s.(file := if torn == 0 then s.file else WriteAt(s.file, i * job.stride, job.plain(i).value[..torn]),
         workers := s.workers[w := Failing(slot, failure)])
    case Flag(w) =>
      var slot := s.workers[w].slot;
      var i := ChunkAt(s, slot);
      s.(completed := if i < |s.completed| then s.completed[i := true] else s.completed,
         workers := s.workers[w := Flagged(slot)])
    case AddLength(w) =>
      var slot := s.workers[w].slot;
      s.(written := s.written + Length(job, ChunkAt(s, slot)), workers := s.workers[w := Added(slot)])
    case AddDone(w) => s.(done := s.done + 1, workers := s.workers[w := AtTop])
    case Record(w) =>
      var error := (s.workers[w].slot, s.workers[w].failure);
      s.(firstError := if s.firstError.Some? then s.firstError else Some(error), workers := s.workers[w := Raising])
    case Raise(w) => s.(aborting := true, workers := s.workers[w := Exited])
    case Join(refused) => JoinStep(s, refused)
  }

  function Length(job: Job, index: nat): nat {
    if job.plain(index).Some? then |job.plain(index).value| else 0
  }

  predicate Ended(s: State) {
    s.phase.Committed? || s.phase.GaveUp?
  }

  ghost predicate IsRun(job: Job, states: seq<State>, actions: seq<Action>) {
    && |states| == |actions| + 1
    && states[0] == Initial(job)
    && forall i :: 0 <= i < |actions| ==>
         Enabled(job, states[i], actions[i]) && states[i + 1] == Step(job, states[i], actions[i])
  }

  // ---- pending chunks and counts -------------------------------------------

  lemma {:induction false} PendingHolds(completed: seq<bool>, i: nat)
    ensures i in Pending(completed) <==> i < |completed| && !completed[i]
  {
    if completed != [] {
      PendingHolds(completed[..|completed| - 1], i);
    }
  }

  lemma {:induction false} PendingAscends(completed: seq<bool>)
    ensures forall k :: 0 <= k < |Pending(completed)| ==> Pending(completed)[k] < |completed|
    ensures forall j, k :: 0 <= j < k < |Pending(completed)| ==> Pending(completed)[j] < Pending(completed)[k]
    ensures |Pending(completed)| == |completed| - CountDone(completed)
  {
    if completed != [] {
      PendingAscends(completed[..|completed| - 1]);
    }
  }

  function CountDone(completed: seq<bool>): (n: nat)
    ensures n <= |completed|
  {
    if completed == [] then 0
    else
      var n := |completed| - 1;
      CountDone(completed[..n]) + if completed[n] then 1 else 0
  }

  function TotalLength(job: Job, completed: seq<bool>): nat {
    if completed == [] then 0
    else
      var n := |completed| - 1;
      TotalLength(job, completed[..n]) + if completed[n] then Length(job, n) else 0
  }

  lemma {:induction false} CompleteOne(job: Job, completed: seq<bool>, i: nat)
    requires i < |completed| && !completed[i]
    ensures CountDone(completed[i := true]) == CountDone(completed) + 1
    ensures TotalLength(job, completed[i := true]) == TotalLength(job, completed) + Length(job, i)
  {
    var n := |completed| - 1;
    if i == n {
      assert completed[i := true][..n] == completed[..n];
    } else {
      assert completed[i := true][..n] == completed[..n][i := true];
      CompleteOne(job, completed[..n], i);
    }
  }

  lemma {:induction false} NoneDone(job: Job, n: nat)
    ensures CountDone(seq(n, i => false)) == 0 && TotalLength(job, seq(n, i => false)) == 0
  {
    if n > 0 {
      NoneDone(job, n - 1);
      assert seq(n, i => false)[..n - 1] == seq(n - 1, i => false);
    }
  }

  function SumOf(ws: seq<Worker>, f: Worker -> nat): nat {
    if ws == [] then 0 else f(ws[0]) + SumOf(ws[1..], f)
  }

  lemma {:induction false} SumUpdate(ws: seq<Worker>, w: nat, x: Worker, f: Worker -> nat)
    requires w < |ws|
    ensures SumOf(ws[w := x], f) == SumOf(ws, f) - f(ws[w]) + f(x)
  {
    if w == 0 {
      assert ws[0 := x][1..] == ws[1..];
    } else {
      SumUpdate(ws[1..], w - 1, x, f);
      assert ws[w := x][1..] == ws[1..][w - 1 := x];
    }
  }

  lemma {:induction false} SumSame(ws: seq<Worker>, f: Worker -> nat, x: Worker)
    requires forall i :: 0 <= i < |ws| ==> ws[i] == x
    ensures SumOf(ws, f) == |ws| * f(x)
  {
    if ws != [] {
      SumSame(ws[1..], f, x);
      assert |ws| * f(x) == (|ws| - 1) * f(x) + f(x);
    }
  }

  // ---- what every step keeps -----------------------------------------------

  /** Chunks do not reach into each other under the reported stride. */
  ghost predicate Fits(job: Job) {
    forall i: nat, j: nat :: i < j && job.plain(i).Some? && job.plain(j).Some? ==>
      i * job.stride + |job.plain(i).value| <= j * job.stride
  }

  /** Every byte of a chunk's plaintext is where it belongs, if chunks keep apart. */
  ghost predicate InPlace(job: Job, file: seq<byte>, i: nat) {
    job.plain(i).Some? && (Fits(job) ==> BytesAt(file, i * job.stride, job.plain(i).value))
  }

  ghost predicate BytesAt(file: seq<byte>, offset: nat, p: seq<byte>) {
    p == [] || (offset + |p| <= |file| && file[offset..offset + |p|] == p)
  }

  predicate Held(s: State, slot: nat) {
    slot < |s.pending| && slot < s.cursor
  }

  predicate Landed(s: State, slot: nat) {
    slot < |s.pending| && s.pending[slot] < |s.completed| && s.completed[s.pending[slot]]
  }

  predicate Has(w: Worker, slot: nat) {
    (w.Claimed? || w.Wrote? || w.Flagged? || w.Added? || w.Failing?) && w.slot == slot
  }

  ghost predicate WorkerOk(job: Job, s: State, w: Worker) {
    match w
    case AtTop => true
    case Claimed(slot) => Held(s, slot) && !Landed(s, slot)
    case Failing(slot, _) => Held(s, slot) && !Landed(s, slot)
    case Wrote(slot) => Held(s, slot) && !Landed(s, slot) && InPlace(job, s.file, s.pending[slot])
    case Flagged(slot) => Held(s, slot) && Landed(s, slot)
    case Added(slot) => Held(s, slot) && Landed(s, slot)
    case Raising => s.firstError.Some?
    case Exited => s.aborting || s.cursor >= |s.pending|
  }

  /** The generation is over exactly the chunks it found open, and none beyond the cursor
      has been touched. */
  ghost predicate Shaped(job: Job, s: State) {
    && |s.completed| == job.count
    && (s.phase == Running ==>
          && 1 <= |s.workers| <= (if job.concurrency >= 1 then job.concurrency else 1)
          && |s.workers| <= |s.pending| <= job.count
          && (forall k :: 0 <= k < |s.pending| ==> s.pending[k] < job.count)
          && (forall j, k :: 0 <= j < k < |s.pending| ==> s.pending[j] < s.pending[k])
          && (forall i :: 0 <= i < job.count && !s.completed[i] ==> i in s.pending)
          && (forall k :: s.cursor <= k < |s.pending| ==> !Landed(s, k)))
  }

  ghost predicate WorkersOk(job: Job, s: State) {
    s.phase == Running ==> forall i :: 0 <= i < |s.workers| ==> WorkerOk(job, s, s.workers[i])
  }

  /** No slot is in two hands. */
  ghost predicate Apart(s: State) {
    s.phase == Running ==>
      forall i, j, slot :: 0 <= i < j < |s.workers| && Has(s.workers[i], slot) ==> !Has(s.workers[j], slot)
  }

  /** The recorded error is about a chunk that has not landed and that nobody works on. */
  ghost predicate ErrorOk(s: State) {
    && (s.phase == Running && s.firstError.Some? ==>
          && Held(s, s.firstError.value.0) && !Landed(s, s.firstError.value.0)
          && forall i :: 0 <= i < |s.workers| ==> !Has(s.workers[i], s.firstError.value.0))
    && (s.aborting ==> s.firstError.Some?)
  }

  ghost predicate InHand(s: State, slot: nat) {
    exists i :: 0 <= i < |s.workers| && Has(s.workers[i], slot)
  }

  /** Until an error is recorded, every claimed chunk has landed or is in hand. */
  ghost predicate Covered(s: State) {
    s.phase == Running && s.firstError.None? ==>
      forall slot :: Held(s, slot) ==> Landed(s, slot) || InHand(s, slot)
  }

  ghost predicate Within(job: Job, file: seq<byte>) {
    file == [] ||
    exists i :: 0 <= i < job.count && job.plain(i).Some? && |file| <= i * job.stride + |job.plain(i).value|
  }

  /** A chunk counted as complete has its plaintext in place. */
  ghost predicate FileOk(job: Job, s: State) {
    && Within(job, s.file)
    && forall i :: 0 <= i < |s.completed| && s.completed[i] ==> InPlace(job, s.file, i)
  }

  function Uncounted(w: Worker): nat {
    if w.Flagged? || w.Added? then 1 else 0
  }

  function Unadded(job: Job, pending: seq<nat>): Worker -> nat {
    (w: Worker) => if w.Flagged? && w.slot < |pending| then Length(job, pending[w.slot]) else 0
  }

  /** The tallies, but for the workers between landing a chunk and adding it up. */
  ghost predicate Tallied(job: Job, s: State) {
    if s.phase == Running then
      && s.done + SumOf(s.workers, Uncounted) == CountDone(s.completed)
      && s.written + SumOf(s.workers, Unadded(job, s.pending)) == TotalLength(job, s.completed)
      && s.doneBefore <= s.done
    else
      s.done == CountDone(s.completed) && s.written == TotalLength(job, s.completed)
  }

  /** Fresh addresses are paid for: at most three for each chunk landed, and two more. */
  ghost predicate Budgeted(job: Job, s: State) {
    && s.stale <= (if s.phase.GaveUp? then STALE_REFRESH_BUDGET else STALE_REFRESH_BUDGET - 1)
    && s.refreshes <= STALE_REFRESH_BUDGET * (if s.phase == Running then s.doneBefore else s.done) + s.stale
    && (s.refreshes == 0 || s.refreshes <= STALE_REFRESH_BUDGET * job.count - 1)
  }

  ghost predicate EndedWell(job: Job, s: State) {
    && s.phase != GaveUp(Incomplete)
    && (s.phase == Committed ==> s.done == job.count && forall i :: 0 <= i < |s.completed| ==> s.completed[i])
  }

  ghost predicate Inv(job: Job, s: State) {
    && Shaped(job, s) && WorkersOk(job, s) && Apart(s) && ErrorOk(s) && Covered(s)
    && FileOk(job, s) && Tallied(job, s) && Budgeted(job, s) && EndedWell(job, s)
  }

  predicate OfWorker(a: Action) {
    !a.Plan? && !a.Join?
  }

  lemma OneWorkerMoves(job: Job, s: State, a: Action)
    requires OfWorker(a) && Enabled(job, s, a)
    ensures var s' := Step(job, s, a);
            && a.w < |s.workers| && s'.workers == s.workers[a.w := s'.workers[a.w]]
            && s' == s.(file := s'.file, completed := s'.completed, done := s'.done, written := s'.written,
                        cursor := s'.cursor, aborting := s'.aborting, firstError := s'.firstError,
                        workers := s'.workers)
  {
  }

  lemma WriteAtMeans(file: seq<byte>, offset: nat, data: seq<byte>)
    ensures var r := WriteAt(file, offset, data);
            && |file| <= |r|
            && (data != [] ==> |r| == if |file| <= offset + |data| then offset + |data| else |file|)
            && (data == [] ==> r == file)
            && (forall b :: 0 <= b < |data| ==> r[offset + b] == data[b])
            && (forall k :: 0 <= k < |file| && !(offset <= k < offset + |data|) ==> r[k] == file[k])
  {
  }

  /** A write to one chunk's place leaves every other chunk's bytes. */
  lemma WritesAreApart(job: Job, file: seq<byte>, i: nat, data: seq<byte>, j: nat)
    requires job.plain(i).Some? && |data| <= |job.plain(i).value| && i != j && InPlace(job, file, j)
    ensures InPlace(job, WriteAt(file, i * job.stride, data), j)
  {
    if Fits(job) {
      assert i * job.stride + |data| <= j * job.stride || j * job.stride + |job.plain(j).value| <= i * job.stride;
      BytesStay(file, i * job.stride, data, j * job.stride, job.plain(j).value);
    }
  }

  lemma BytesStay(file: seq<byte>, offset: nat, data: seq<byte>, at: nat, p: seq<byte>)
    requires BytesAt(file, at, p) && (offset + |data| <= at || at + |p| <= offset)
    ensures BytesAt(WriteAt(file, offset, data), at, p)
  {
    WriteAtMeans(file, offset, data);
  }

  lemma WrittenIsInPlace(job: Job, file: seq<byte>, i: nat)
    requires job.plain(i).Some?
    ensures InPlace(job, WriteAt(file, i * job.stride, job.plain(i).value), i)
  {
    WriteAtMeans(file, i * job.stride, job.plain(i).value);
  }

  // ---- the steps of a worker -----------------------------------------------

  /** Completing the chunk of one slot completes no other slot's. */
  lemma LandsOne(job: Job, s: State, a: Action, k: nat)
    requires OfWorker(a) && Enabled(job, s, a) && Shaped(job, s) && WorkersOk(job, s)
    requires a.Flag? ==> k != s.workers[a.w].slot
    ensures Landed(Step(job, s, a), k) == Landed(s, k)
  {
    hide InPlace;
    assert WorkerOk(job, s, s.workers[a.w]);
    if a.Flag? {
      var slot := s.workers[a.w].slot;
      assert k < |s.pending| ==> s.pending[slot] != s.pending[k];
    }
  }

  lemma KeepsShaped(job: Job, s: State, a: Action)
    requires OfWorker(a) && Enabled(job, s, a) && Shaped(job, s) && WorkersOk(job, s)
    ensures Shaped(job, Step(job, s, a))
  {
    hide InPlace;
    var s' := Step(job, s, a);
    OneWorkerMoves(job, s, a);
    assert WorkerOk(job, s, s.workers[a.w]);
    forall k | s'.cursor <= k < |s'.pending| ensures !Landed(s', k) {
      LandsOne(job, s, a, k);
    }
  }

  /** What another worker relies on is not disturbed. */
  lemma OthersStayOk(job: Job, s: State, a: Action, i: nat)
    requires OfWorker(a) && Enabled(job, s, a)
    requires Shaped(job, s) && WorkersOk(job, s) && Apart(s) && i < |s.workers| && i != a.w
    ensures WorkerOk(job, Step(job, s, a), s.workers[i])
  {
    var s' := Step(job, s, a);
    OneWorkerMoves(job, s, a);
    var me, other := s.workers[a.w], s.workers[i];
    assert WorkerOk(job, s, me) && WorkerOk(job, s, other);
    if !other.AtTop? && !other.Raising? && !other.Exited? {
      assert Has(other, other.slot) && !Has(me, other.slot);
      LandsOne(job, s, a, other.slot);
      if other.Wrote? && (a.Write? || a.Fail?) {
        assert s.pending[me.slot] != s.pending[other.slot];
        var p := job.plain(s.pending[me.slot]);
        hide InPlace;
        if p.Some? {
          WritesAreApart(job, s.file, s.pending[me.slot], if a.Write? then p.value else p.value[..a.torn],
                         s.pending[other.slot]);
        }
      }
    }
  }

  lemma KeepsWorkers(job: Job, s: State, a: Action)
    requires OfWorker(a) && Enabled(job, s, a)
    requires Shaped(job, s) && WorkersOk(job, s) && Apart(s) && ErrorOk(s)
    ensures WorkersOk(job, Step(job, s, a))
  {
    var s' := Step(job, s, a);
    OneWorkerMoves(job, s, a);
    assert WorkerOk(job, s, s.workers[a.w]);
    if a.Write? {
      WrittenIsInPlace(job, s.file, s.pending[s.workers[a.w].slot]);
    }
    assert WorkerOk(job, s', s'.workers[a.w]) by {
      hide InPlace;
      assert a.Claim? && s.cursor < |s.pending| ==> !Landed(s, s.cursor) && !Landed(s', s.cursor);
    }
    forall i | 0 <= i < |s'.workers| ensures WorkerOk(job, s', s'.workers[i]) {
      hide WorkerOk, Step, Enabled;
      if i != a.w {
        OthersStayOk(job, s, a, i);
      }
    }
  }

  lemma KeepsApart(job: Job, s: State, a: Action)
    requires OfWorker(a) && Enabled(job, s, a)
    requires WorkersOk(job, s) && Apart(s)
    ensures Apart(Step(job, s, a))
  {
    hide InPlace;
    var s' := Step(job, s, a);
    OneWorkerMoves(job, s, a);
    forall i, j, slot | 0 <= i < j < |s'.workers| && Has(s'.workers[i], slot) ensures !Has(s'.workers[j], slot) {
      assert WorkerOk(job, s, s.workers[i]) && WorkerOk(job, s, s.workers[j]);
    }
  }

  lemma KeepsError(job: Job, s: State, a: Action)
    requires OfWorker(a) && Enabled(job, s, a)
    requires Shaped(job, s) && WorkersOk(job, s) && Apart(s) && ErrorOk(s)
    ensures ErrorOk(Step(job, s, a))
  {
    hide InPlace;
    var s' := Step(job, s, a);
    OneWorkerMoves(job, s, a);
    assert WorkerOk(job, s, s.workers[a.w]);
    if s'.firstError.Some? {
      var slot := s'.firstError.value.0;
      assert a.Flag? ==> Has(s.workers[a.w], s.workers[a.w].slot);
      LandsOne(job, s, a, slot);
      forall i | 0 <= i < |s'.workers| ensures !Has(s'.workers[i], slot) {
        assert i != a.w && a.Record? && s.firstError.None? ==> Has(s.workers[a.w], slot);
      }
    }
  }

  lemma KeepsCovered(job: Job, s: State, a: Action)
    requires OfWorker(a) && Enabled(job, s, a)
    requires Shaped(job, s) && WorkersOk(job, s) && ErrorOk(s) && Covered(s)
    ensures Covered(Step(job, s, a))
  {
    hide InPlace;
    var s' := Step(job, s, a);
    OneWorkerMoves(job, s, a);
    if s'.firstError.None? {
      assert WorkerOk(job, s, s.workers[a.w]);
      forall slot | Held(s', slot) ensures Landed(s', slot) || InHand(s', slot) {
        if Has(s'.workers[a.w], slot) {
        } else if !Held(s, slot) {
        } else if a.Flag? && slot == s.workers[a.w].slot {
        } else {
          LandsOne(job, s, a, slot);
          if !Landed(s, slot) {
            var i :| 0 <= i < |s.workers| && Has(s.workers[i], slot);
            assert Has(s'.workers[i], slot);
          }
        }
      }
    }
  }

  lemma StaysWithin(job: Job, file: seq<byte>, i: nat, data: seq<byte>)
    requires Within(job, file) && i < job.count && job.plain(i).Some? && |data| <= |job.plain(i).value|
    ensures Within(job, WriteAt(file, i * job.stride, data))
  {
    WriteAtMeans(file, i * job.stride, data);
    hide WriteAt;
  }

  lemma WriteKeepsFile(job: Job, s: State, i: nat, data: seq<byte>, file: seq<byte>)
    requires FileOk(job, s) && |s.completed| == job.count && i < job.count && !s.completed[i]
    requires job.plain(i).Some? && |data| <= |job.plain(i).value| && file == WriteAt(s.file, i * job.stride, data)
    ensures FileOk(job, s.(file := file))
  {
    hide InPlace, WriteAt, Within;
    StaysWithin(job, s.file, i, data);
    forall j | 0 <= j < |s.completed| && s.completed[j] ensures InPlace(job, file, j) {
      WritesAreApart(job, s.file, i, data, j);
    }
  }

  lemma KeepsFile(job: Job, s: State, a: Action)
    requires OfWorker(a) && Enabled(job, s, a)
    requires Shaped(job, s) && WorkersOk(job, s) && FileOk(job, s)
    ensures FileOk(job, Step(job, s, a))
  {
    hide InPlace, Within, WriteAt;
    var s' := Step(job, s, a);
    OneWorkerMoves(job, s, a);
    assert WorkerOk(job, s, s.workers[a.w]);
    if a.Write? || (a.Fail? && a.torn > 0) {
      var i := s.pending[s.workers[a.w].slot];
      WriteKeepsFile(job, s, i, if a.Write? then job.plain(i).value else job.plain(i).value[..a.torn], s'.file);
    }
  }

  lemma KeepsTallied(job: Job, s: State, a: Action)
    requires OfWorker(a) && Enabled(job, s, a)
    requires Shaped(job, s) && WorkersOk(job, s) && Tallied(job, s)
    ensures Tallied(job, Step(job, s, a))
  {
    hide InPlace, SumOf, CountDone, TotalLength;
    var s' := Step(job, s, a);
    OneWorkerMoves(job, s, a);
    assert WorkerOk(job, s, s.workers[a.w]);
    SumUpdate(s.workers, a.w, s'.workers[a.w], Uncounted);
    SumUpdate(s.workers, a.w, s'.workers[a.w], Unadded(job, s.pending));
    if a.Flag? {
      CompleteOne(job, s.completed, s.pending[s.workers[a.w].slot]);
    }
  }

  // ---- the steps of the loop -----------------------------------------------

  lemma PlanKeeps(job: Job, s: State, a: Action)
    requires a.Plan? && Enabled(job, s, a) && Inv(job, s)
    ensures Inv(job, Step(job, s, a))
  {
    hide InPlace, SumOf, CountDone, TotalLength, Pending;
    var s' := Step(job, s, a);
    PendingAscends(s.completed);
    forall i | 0 <= i < job.count ensures s.completed[i] || i in Pending(s.completed) {
      PendingHolds(s.completed, i);
    }
    if s'.phase == Running {
      SumSame(s'.workers, Uncounted, AtTop);
      SumSame(s'.workers, Unadded(job, s'.pending), AtTop);
      forall k | 0 <= k < |s'.pending| ensures !Landed(s', k) {
        PendingHolds(s.completed, s'.pending[k]);
      }
    }
  }

  lemma JoinKeeps(job: Job, s: State, a: Action)
    requires a.Join? && Enabled(job, s, a) && Inv(job, s)
    ensures Inv(job, Step(job, s, a))
  {
    hide InPlace, SumOf, TotalLength, CountDone;
    SumSame(s.workers, Uncounted, Exited);
    SumSame(s.workers, Unadded(job, s.pending), Exited);
    if s.firstError.Some? {
      MissingOne(s.completed, s.pending[s.firstError.value.0]);
    }
  }

  lemma {:induction false} MissingOne(completed: seq<bool>, i: nat)
    requires i < |completed| && !completed[i]
    ensures CountDone(completed) < |completed|
  {
    if i < |completed| - 1 {
      MissingOne(completed[..|completed| - 1], i);
    }
  }

  /** Every step of every interleaving, whatever storage and the server answer, keeps the
      invariant. */
  lemma StepKeeps(job: Job, s: State, a: Action)
    requires Enabled(job, s, a) && Inv(job, s)
    ensures Inv(job, Step(job, s, a))
  {
    if OfWorker(a) {
      KeepsShaped(job, s, a);
      KeepsWorkers(job, s, a);
      KeepsApart(job, s, a);
      KeepsError(job, s, a);
      KeepsCovered(job, s, a);
      KeepsFile(job, s, a);
      KeepsTallied(job, s, a);
      OneWorkerMoves(job, s, a);
      hide Enabled, Step, Shaped, WorkersOk, Apart, ErrorOk, Covered, FileOk, Tallied;
    } else if a.Plan? {
      PlanKeeps(job, s, a);
    } else {
      JoinKeeps(job, s, a);
    }
  }

  /** A generation that ends without an error has landed every chunk; one that ends with an
      error has left one behind. */
  lemma CleanGenerationFinishes(job: Job, s: State, refused: bool)
    requires Shaped(job, s) && WorkersOk(job, s) && ErrorOk(s) && Covered(s) && Tallied(job, s)
    requires Enabled(job, s, Join(refused))
    ensures s.firstError.None? <==> CountDone(s.completed) == job.count
    ensures s.done == CountDone(s.completed)
  {
    hide InPlace, SumOf, TotalLength, CountDone;
    SumSame(s.workers, Uncounted, Exited);
    if s.firstError.Some? {
      MissingOne(s.completed, s.pending[s.firstError.value.0]);
    } else {
      assert WorkerOk(job, s, s.workers[0]);
      forall i | 0 <= i < job.count ensures s.completed[i] {
        if i in s.pending {
          var slot: nat :| slot < |s.pending| && s.pending[slot] == i;
          assert Held(s, slot) && !InHand(s, slot);
        }
      }
      AllDone(s.completed);
    }
  }

  lemma {:induction false} AllDone(completed: seq<bool>)
    requires forall i :: 0 <= i < |completed| ==> completed[i]
    ensures CountDone(completed) == |completed|
  {
    if completed != [] {
      AllDone(completed[..|completed| - 1]);
    }
  }

  // ---- termination ---------------------------------------------------------

  function Weight(w: Worker): nat {
    match w
    case AtTop => 1
    case Claimed(_) => 5
    case Wrote(_) => 4
    case Flagged(_) => 3
    case Added(_) => 2
    case Failing(_, _) => 2
    case Raising => 1
    case Exited => 0
  }

  /** More than any one generation can take. */
  function Span(job: Job): nat {
    8 * job.count + job.concurrency + 6
  }

  function PhaseWeight(job: Job, s: State): nat {
    match s.phase
    case Planning => if CountDone(s.completed) == job.count then 1 else Span(job) - 1
    case Running => 2 + SumOf(s.workers, Weight) + if s.cursor <= |s.pending| then 8 * (|s.pending| - s.cursor) else 0
    case Committed => 0
    case GaveUp(_) => 0
  }

  function Measure(job: Job, s: State): nat {
    var left := if s.refreshes <= 3 * job.count then 3 * job.count - s.refreshes else 0;
    left * Span(job) + PhaseWeight(job, s)
  }

  lemma WorkerDecreases(job: Job, s: State, a: Action)
    requires OfWorker(a) && Enabled(job, s, a)
    ensures PhaseWeight(job, Step(job, s, a)) < PhaseWeight(job, s)
  {
    hide SumOf, Pending, CountDone, WriteAt;
    OneWorkerMoves(job, s, a);
    SumUpdate(s.workers, a.w, Step(job, s, a).workers[a.w], Weight);
  }

  lemma LoopDecreases(job: Job, s: State, a: Action)
    requires !OfWorker(a) && Enabled(job, s, a) && Inv(job, s)
    ensures var s' := Step(job, s, a);
            && PhaseWeight(job, s') < Span(job)
            && (s'.refreshes == s.refreshes ==> PhaseWeight(job, s') < PhaseWeight(job, s))
            && s.refreshes <= s'.refreshes <= s.refreshes + 1
  {
    hide InPlace, SumOf, TotalLength, Pending, CountDone, WorkersOk, Apart, ErrorOk, Covered, FileOk, Tallied,
      EndedWell, WriteAt;
    var s' := Step(job, s, a);
    if a.Join? {
      CleanGenerationFinishes(job, s, a.refused);
    } else {
      PendingAscends(s.completed);
      if s'.phase == Running {
        SumSame(s'.workers, Weight, AtTop);
      }
    }
  }

  /** Every step of every interleaving brings the download nearer its end. */
  lemma StepDecreases(job: Job, s: State, a: Action)
    requires Enabled(job, s, a) && Inv(job, s) && Inv(job, Step(job, s, a))
    ensures Measure(job, Step(job, s, a)) < Measure(job, s)
  {
    hide InPlace, Shaped, WorkersOk, Apart, ErrorOk, Covered, FileOk, Tallied, PhaseWeight, Step, Enabled, Span;
    var s' := Step(job, s, a);
    if OfWorker(a) {
      OneWorkerMoves(job, s, a);
      WorkerDecreases(job, s, a);
    } else {
      LoopDecreases(job, s, a);
      if s'.refreshes > s.refreshes {
        var left: nat := 3 * job.count - s.refreshes;
        assert left * Span(job) == (left - 1) * Span(job) + Span(job);
      }
    }
  }

  /** A step in which nothing goes wrong. */
  predicate Quiet(a: Action) {
    !a.Fail? && a != Action.Plan(false)
  }

  /** No interleaving is stuck before the download has ended, and nothing need go wrong to
      move it on when every chunk can be opened. */
  lemma SomeoneCanMove(job: Job, s: State) returns (a: Action)
    requires !Ended(s) && Inv(job, s)
    ensures Enabled(job, s, a) && a != Join(true)
    ensures (forall i :: 0 <= i < job.count ==> job.plain(i).Some?) ==> Quiet(a)
  {
    hide Apart, ErrorOk, Covered, FileOk, Tallied, Budgeted, EndedWell, InPlace;
    if s.phase == Planning {
      a := Action.Plan(true);
    } else if w: nat :| w < |s.workers| && s.workers[w] != Exited {
      assert WorkerOk(job, s, s.workers[w]);
      match s.workers[w]
      case AtTop => a := Claim(w);
      case Claimed(slot) => a := if job.plain(ChunkAt(s, slot)).Some? then Write(w) else Fail(w, Rejected, 0);
      case Wrote(_) => a := Flag(w);
      case Flagged(_) => a := AddLength(w);
      case Added(_) => a := AddDone(w);
      case Failing(_, _) => a := Record(w);
      case Raising => a := Raise(w);
    } else {
      a := Join(false);
    }
  }

  lemma StartsOk(job: Job)
    ensures Inv(job, Initial(job))
  {
    NoneDone(job, job.count);
  }

  lemma {:induction false} RunsAreSafe(job: Job, states: seq<State>, actions: seq<Action>, k: nat)
    requires IsRun(job, states, actions) && k < |states|
    ensures Inv(job, states[k])
    ensures k + Measure(job, states[k]) <= Measure(job, states[0])
    decreases k
  {
    hide Inv, Enabled, Step, Measure, Initial;
    if k == 0 {
      StartsOk(job);
    } else {
      RunsAreSafe(job, states, actions, k - 1);
      StepKeeps(job, states[k - 1], actions[k - 1]);
      StepDecreases(job, states[k - 1], actions[k - 1]);
    }
  }

  lemma StartMeasure(job: Job)
    ensures Measure(job, Initial(job)) <= (3 * job.count + 1) * (8 * job.count + job.concurrency + 6)
  {
    assert (3 * job.count + 1) * Span(job) == 3 * job.count * Span(job) + Span(job);
  }

  /** Whatever storage answers, every run ends: its length is bounded by the chunks and the
      workers, it asks for fewer than three fresh addresses a chunk, and it is never stuck. */
  lemma EveryRunEnds(job: Job, states: seq<State>, actions: seq<Action>)
    requires IsRun(job, states, actions)
    ensures var s := states[|actions|];
            && |actions| <= (3 * job.count + 1) * (8 * job.count + job.concurrency + 6)
            && s.refreshes <= 3 * s.done + 3
            && (s.refreshes == 0 || s.refreshes <= 3 * job.count - 1)
            && (Ended(s) || exists a :: Enabled(job, s, a))
  {
    RunsAreSafe(job, states, actions, |actions|);
    StartMeasure(job);
    hide InPlace, Shaped, WorkersOk, Apart, ErrorOk, Covered, FileOk, Tallied, Measure, Enabled, Step;
    var s := states[|actions|];
    if !Ended(s) {
      var a := SomeoneCanMove(job, s);
    }
  }

  // ---- one claim a chunk ---------------------------------------------------

  lemma CursorAfter(job: Job, s: State, a: Action)
    requires Enabled(job, s, a) && !a.Plan?
    ensures Step(job, s, a).pending == s.pending
    ensures Step(job, s, a).cursor == s.cursor + if a.Claim? then 1 else 0
  {
  }

  lemma {:induction false} CursorMovesOn(job: Job, states: seq<State>, actions: seq<Action>, i: nat, j: nat)
    requires IsRun(job, states, actions) && i <= j < |states|
    requires forall k :: i <= k < j ==> !actions[k].Plan?
    ensures states[j].pending == states[i].pending && states[j].cursor >= states[i].cursor
    decreases j
  {
    hide Enabled, Step;
    if i < j {
      CursorMovesOn(job, states, actions, i, j - 1);
      CursorAfter(job, states[j - 1], actions[j - 1]);
    }
  }

  /** Over every run, a pending chunk is claimed at most once in a generation: two claims with
      no planning between them take different chunks. */
  lemma ClaimedOnce(job: Job, states: seq<State>, actions: seq<Action>, i: nat, j: nat)
    requires IsRun(job, states, actions) && i < j < |actions| && actions[i].Claim? && actions[j].Claim?
    requires forall k :: i <= k < j ==> !actions[k].Plan?
    requires states[i].cursor < |states[i].pending| && states[j].cursor < |states[j].pending|
    ensures states[i + 1].workers[actions[i].w] == Claimed(states[i].cursor)
    ensures states[j + 1].workers[actions[j].w] == Claimed(states[j].cursor)
    ensures states[i].pending[states[i].cursor] != states[j].pending[states[j].cursor]
  {
    RunsAreSafe(job, states, actions, j);
    assert Shaped(job, states[j]);
    CursorAfter(job, states[i], actions[i]);
    CursorMovesOn(job, states, actions, i + 1, j);
    hide Inv;
  }

  lemma ErrorAfter(job: Job, s: State, a: Action)
    requires Enabled(job, s, a) && !a.Plan?
    ensures s.firstError.Some? ==> Step(job, s, a).firstError == s.firstError
    ensures s.firstError.None? && Step(job, s, a).firstError.Some? ==>
              a.Record? && Step(job, s, a).firstError == Some((s.workers[a.w].slot, s.workers[a.w].failure))
  {
  }

  /** Over every run, the error a generation ends with is the first one recorded in it. */
  lemma {:induction false} FirstErrorWins(job: Job, states: seq<State>, actions: seq<Action>, i: nat, j: nat)
    requires IsRun(job, states, actions) && i <= j < |states| && states[i].firstError.Some?
    requires forall k :: i <= k < j ==> !actions[k].Plan?
    ensures states[j].firstError == states[i].firstError
    decreases j
  {
    hide Enabled, Step;
    if i < j {
      FirstErrorWins(job, states, actions, i, j - 1);
      ErrorAfter(job, states[j - 1], actions[j - 1]);
    }
  }

  // ---- giving up on the address --------------------------------------------

  predicate RejectedJoin(s: State, a: Action) {
    a.Join? && s.firstError.Some? && s.firstError.value.1.Rejected?
  }

  /** A generation ended by a rejected address without landing a chunk. */
  predicate FruitlessJoin(s: State, a: Action) {
    RejectedJoin(s, a) && s.done <= s.doneBefore
  }

  lemma StaleAfter(job: Job, s: State, a: Action)
    requires Enabled(job, s, a)
    ensures Step(job, s, a).stale
            == if FruitlessJoin(s, a) then s.stale + 1 else if RejectedJoin(s, a) then 0 else s.stale
  {
  }

  /** The count of fruitless rejections is what it says: behind a count that is not zero is a
      fruitless join that raised it, with no rejected generation since. */
  lemma {:induction false} StaleHistory(job: Job, states: seq<State>, actions: seq<Action>, k: nat) returns (j: nat)
    requires IsRun(job, states, actions) && k < |states| && states[k].stale >= 1
    ensures j < k && FruitlessJoin(states[j], actions[j]) && states[j].stale == states[k].stale - 1
    ensures forall t :: j < t < k ==> !RejectedJoin(states[t], actions[t])
    decreases k
  {
    hide Enabled, Step, Initial, FruitlessJoin, RejectedJoin;
    if k == 0 {
      StartsFresh(job);
      assert false;
    } else {
      StaleAfter(job, states[k - 1], actions[k - 1]);
      if FruitlessJoin(states[k - 1], actions[k - 1]) {
        j := k - 1;
      } else {
        j := StaleHistory(job, states, actions, k - 1);
      }
    }
  }

  lemma StartsFresh(job: Job)
    ensures Initial(job).stale == 0
  {
  }

  lemma GivesUpOnlyAt(job: Job, s: State, a: Action)
    requires Enabled(job, s, a) && Step(job, s, a).phase == GaveUp(StaleAddress) && s.stale <= 2
    ensures FruitlessJoin(s, a) && s.stale == 2
  {
  }

  /** The download gives up on the address only after three rejected generations in a row that
      landed nothing: any chunk landed in between earns it a fresh start. */
  lemma GivesUpAfterThree(job: Job, states: seq<State>, actions: seq<Action>) returns (i: nat, j: nat)
    requires IsRun(job, states, actions) && |actions| > 0 && states[|actions|].phase == GaveUp(StaleAddress)
    ensures var k := |actions| - 1;
            && i < j < k
            && FruitlessJoin(states[i], actions[i]) && FruitlessJoin(states[j], actions[j])
            && FruitlessJoin(states[k], actions[k])
            && forall t :: i < t < k && t != j ==> !RejectedJoin(states[t], actions[t])
  {
    var k := |actions| - 1;
    RunsAreSafe(job, states, actions, k);
    assert states[k].stale <= 2;
    GivesUpOnlyAt(job, states[k], actions[k]);
    hide Inv, Enabled, Step, FruitlessJoin, RejectedJoin;
    j := StaleHistory(job, states, actions, k);
    i := StaleHistory(job, states, actions, j);
  }

  // ---- what a committed download holds -------------------------------------

  /** What the file's key opens at an index when the reported count is `n`: only the sealed
      chunks exist under it, and the last-chunk bit has to agree. */
  function Opens(content: seq<byte>, chunkSize: nat, n: nat): nat -> Option<seq<byte>>
    requires chunkSize >= 1
  {
    (i: nat) =>
      var sealed := ChunkCount(|content|, chunkSize);
      if i < n && i < sealed && (i == n - 1) == (i == sealed - 1) then Some(Chunk(content, chunkSize, i)) else None
  }

  /** What the download can open is what was sealed. */
  ghost predicate Reads(job: Job, content: seq<byte>, chunkSize: nat) {
    chunkSize >= 1 && forall i: nat :: job.plain(i) == Opens(content, chunkSize, job.count)(i)
  }

  /** Storage has no bytes under this key but those of the file's own envelopes. */
  ghost predicate Genuine(dek: nat, fileId: nat, content: seq<byte>, chunkSize: nat, cells: seq<Cell>)
    requires chunkSize >= 1
  {
    forall c :: c in cells && c.Cell? && c.envelope.dek == dek ==>
      exists i :: 0 <= i < ChunkCount(|content|, chunkSize)
          && c.envelope == EnvelopeOf(dek, fileId, content, chunkSize, i)
  }

  /** Whatever bytes storage answers with, a chunk opens to what `Opens` says or not at all. */
  lemma StorageCannotForge(dek: nat, fileId: nat, content: seq<byte>, chunkSize: nat, n: nat, i: nat, cells: seq<Cell>)
    requires chunkSize >= 1 && Genuine(dek, fileId, content, chunkSize, cells)
    ensures var r := OpenChunk(dek, fileId, i, n, cells); r.Some? ==> r == Opens(content, chunkSize, n)(i)
  {
    if OpenChunk(dek, fileId, i, n, cells).Some? {
      assert cells[0] in cells;
      var j :| 0 <= j < ChunkCount(|content|, chunkSize)
          && cells[0].envelope == EnvelopeOf(dek, fileId, content, chunkSize, j);
    }
  }

  lemma {:induction false} FullLengths(job: Job, completed: seq<bool>, length: nat)
    requires forall i :: 0 <= i < |completed| ==> completed[i] && Length(job, i) == length
    ensures TotalLength(job, completed) == |completed| * length
  {
    if completed != [] {
      FullLengths(job, completed[..|completed| - 1], length);
      assert |completed| * length == (|completed| - 1) * length + length;
    }
  }

  lemma LengthsAddUp(content: seq<byte>, chunkSize: nat, job: Job, completed: seq<bool>)
    requires Reads(job, content, chunkSize) && |completed| == job.count == ChunkCount(|content|, chunkSize)
    requires forall i :: 0 <= i < |completed| ==> completed[i]
    ensures TotalLength(job, completed) == |content|
  {
    var n := |completed|;
    forall i | 0 <= i < n ensures Length(job, i) == if i < n - 1 then chunkSize else |content| - (n - 1) * chunkSize {
      ChunkLength(content, chunkSize, i);
    }
    FullLengths(job, completed[..n - 1], chunkSize);
  }

  /** A download of a file sealed as `content` in chunks of `chunkSize`, with every chunk
      complete. */
  ghost predicate AllInPlace(content: seq<byte>, chunkSize: nat, job: Job, file: seq<byte>) {
    && Reads(job, content, chunkSize)
    && Within(job, file)
    && forall i :: 0 <= i < job.count ==> InPlace(job, file, i)
  }

  lemma RightStrideFits(content: seq<byte>, chunkSize: nat, job: Job)
    requires Reads(job, content, chunkSize)
    requires job.count == ChunkCount(|content|, chunkSize) && (job.stride >= chunkSize || job.count == 1)
    ensures Fits(job)
  {
    forall i: nat, j: nat | i < j && job.plain(i).Some? && job.plain(j).Some?
      ensures i * job.stride + |job.plain(i).value| <= j * job.stride
    {
      MulMono(i + 1, j, job.stride);
      assert (i + 1) * job.stride == i * job.stride + job.stride;
    }
  }

  lemma RightStride(content: seq<byte>, chunkSize: nat, job: Job, file: seq<byte>)
    requires AllInPlace(content, chunkSize, job, file) && job.count == ChunkCount(|content|, chunkSize)
    requires job.stride == chunkSize || job.count == 1
    ensures file == content
  {
    RightStrideFits(content, chunkSize, job);
    NotLonger(content, chunkSize, job, file);
    hide *;
    if content != [] {
      ByteIsPlaced(content, chunkSize, job, file, |content| - 1);
    }
    forall b | 0 <= b < |content| ensures b < |file| && file[b] == content[b] {
      ByteIsPlaced(content, chunkSize, job, file, b);
    }
  }

  lemma NotLonger(content: seq<byte>, chunkSize: nat, job: Job, file: seq<byte>)
    requires AllInPlace(content, chunkSize, job, file) && job.count == ChunkCount(|content|, chunkSize)
    requires job.stride == chunkSize || job.count == 1
    ensures |file| <= |content|
  {
    hide Fits, InPlace, Chunk, ChunkCount;
    if file != [] {
      var i :| 0 <= i < job.count && job.plain(i).Some? && |file| <= i * job.stride + |job.plain(i).value|;
      ChunkLength(content, chunkSize, i);
      assert i * job.stride == i * chunkSize;
    }
  }

  lemma ByteIsPlaced(content: seq<byte>, chunkSize: nat, job: Job, file: seq<byte>, b: nat)
    requires AllInPlace(content, chunkSize, job, file) && job.count == ChunkCount(|content|, chunkSize)
    requires (job.stride == chunkSize || job.count == 1) && Fits(job) && b < |content|
    ensures b < |file| && file[b] == content[b]
  {
    hide Fits, Chunk, ChunkCount, Within;
    var i, r := Locate(content, chunkSize, b);
    assert InPlace(job, file, i);
    assert file[i * job.stride + r] == Chunk(content, chunkSize, i)[r];
  }

  lemma WrongStride(content: seq<byte>, chunkSize: nat, job: Job, file: seq<byte>)
    requires AllInPlace(content, chunkSize, job, file) && job.count == ChunkCount(|content|, chunkSize)
    requires job.stride != chunkSize && job.count > 1
    ensures |file| != |content|
  {
    CountBounds(|content|, chunkSize);
    ChunkLength(content, chunkSize, job.count - 1);
    if job.stride > chunkSize {
      TooWide(content, chunkSize, job, file);
    } else if file != [] {
      var i :| 0 <= i < job.count && job.plain(i).Some? && |file| <= i * job.stride + |job.plain(i).value|;
      TooNarrow(content, chunkSize, job.stride, i);
    }
  }

  lemma TooWide(content: seq<byte>, chunkSize: nat, job: Job, file: seq<byte>)
    requires AllInPlace(content, chunkSize, job, file) && job.count == ChunkCount(|content|, chunkSize)
    requires job.stride > chunkSize && job.count > 1
    ensures |file| > |content|
  {
    RightStrideFits(content, chunkSize, job);
    hide Fits, Chunk, ChunkCount, Within, InPlace;
    var last := job.count - 1;
    CountBounds(|content|, chunkSize);
    ChunkLength(content, chunkSize, last);
    ReachesEnd(job, file, last);
    StrictMul(last, chunkSize, job.stride);
  }

  lemma ReachesEnd(job: Job, file: seq<byte>, i: nat)
    requires Fits(job) && InPlace(job, file, i) && job.plain(i).value != []
    ensures i * job.stride + |job.plain(i).value| <= |file|
  {
    var p := job.plain(i).value;
    assert p[|p| - 1] == file[i * job.stride + (|p| - 1)];
  }

  lemma TooNarrow(content: seq<byte>, chunkSize: nat, stride: nat, i: nat)
    requires chunkSize >= 1 && i < ChunkCount(|content|, chunkSize) && ChunkCount(|content|, chunkSize) > 1
    requires stride < chunkSize
    ensures i * stride + |Chunk(content, chunkSize, i)| < |content|
  {
    hide Chunk, ChunkCount;
    var last := ChunkCount(|content|, chunkSize) - 1;
    CountBounds(|content|, chunkSize);
    ChunkLength(content, chunkSize, i);
    if i == last {
      StrictMul(last, stride, chunkSize);
    } else {
      assert i * stride <= i * chunkSize;
      MulMono(i + 1, last, chunkSize);
      assert (i + 1) * chunkSize == i * chunkSize + chunkSize;
    }
  }

  lemma StrictMul(a: nat, b: nat, c: nat)
    requires a >= 1 && b < c
    ensures a * b < a * c
  {
  }

  /** The exact meaning of a committed download, whatever count and stride the server
      reported and whatever storage answered: a reported count that is not zero is the true
      one and every byte is counted; and the file under the requested name is the one that
      was sealed exactly when the count is true and so is the stride, which a single chunk
      does not use (or there was nothing to fetch and nothing sealed). */
  lemma CommitMeans(content: seq<byte>, chunkSize: nat, job: Job, states: seq<State>, actions: seq<Action>)
    requires Reads(job, content, chunkSize)
    requires IsRun(job, states, actions) && states[|actions|].phase == Committed
    ensures var s, n := states[|actions|], ChunkCount(|content|, chunkSize);
            && (job.count == 0 || job.count == n)
            && s.written == (if job.count == 0 then 0 else |content|)
            && (s.file == content <==>
                  (job.count == n && (job.stride == chunkSize || n == 1)) || (job.count == 0 && content == []))
  {
    RunsAreSafe(job, states, actions, |actions|);
    var s, n := states[|actions|], ChunkCount(|content|, chunkSize);
    hide InPlace, Within, CountDone, TotalLength, IsRun, ChunkCount, Chunk;
    assert AllInPlace(content, chunkSize, job, s.file);
    CommittedCount(content, chunkSize, job, s.file);
    if job.count == 0 {
      EmptyTotals(job, s);
    } else {
      LengthsAddUp(content, chunkSize, job, s.completed);
      if job.stride == chunkSize || n == 1 {
        RightStride(content, chunkSize, job, s.file);
      } else {
        WrongStride(content, chunkSize, job, s.file);
      }
    }
  }

  lemma CommittedCount(content: seq<byte>, chunkSize: nat, job: Job, file: seq<byte>)
    requires AllInPlace(content, chunkSize, job, file)
    ensures job.count == 0 || job.count == ChunkCount(|content|, chunkSize)
  {
    if job.count > 0 {
      assert InPlace(job, file, job.count - 1);
    }
  }

  lemma EmptyTotals(job: Job, s: State)
    requires job.count == 0 && Within(job, s.file) && Shaped(job, s)
    ensures s.file == [] && TotalLength(job, s.completed) == 0
  {
  }

  // ---- when nothing goes wrong ---------------------------------------------

  ghost predicate Calm(s: State) {
    && !s.phase.GaveUp? && s.firstError.None?
    && forall i :: 0 <= i < |s.workers| ==> !s.workers[i].Failing? && !s.workers[i].Raising?
  }

  lemma QuietStepIsCalm(job: Job, s: State, a: Action)
    requires Enabled(job, s, a) && Quiet(a) && Calm(s) && EndedWell(job, Step(job, s, a))
    ensures Calm(Step(job, s, a))
  {
    if OfWorker(a) {
      OneWorkerMoves(job, s, a);
    }
  }

  lemma {:induction false} QuietRunIsCalm(job: Job, states: seq<State>, actions: seq<Action>, k: nat)
    requires IsRun(job, states, actions) && k < |states| && forall i :: 0 <= i < |actions| ==> Quiet(actions[i])
    ensures Calm(states[k])
    decreases k
  {
    hide Calm, Enabled, Step;
    if k > 0 {
      QuietRunIsCalm(job, states, actions, k - 1);
      RunsAreSafe(job, states, actions, k);
      QuietStepIsCalm(job, states[k - 1], actions[k - 1]);
    } else {
      StartsCalm(job);
    }
  }

  lemma StartsCalm(job: Job)
    ensures Calm(Initial(job))
  {
  }

  /** A download told the true count and stride, with nothing failing, moves on until it has
      committed exactly the bytes that were sealed. */
  lemma QuietDownloadDelivers(content: seq<byte>, chunkSize: nat, job: Job, states: seq<State>, actions: seq<Action>)
    requires Reads(job, content, chunkSize)
    requires job.count == ChunkCount(|content|, chunkSize) && job.stride == chunkSize
    requires IsRun(job, states, actions) && forall i :: 0 <= i < |actions| ==> Quiet(actions[i])
    ensures var s := states[|actions|];
            if Ended(s) then s.phase == Committed && s.file == content && s.written == |content|
            else exists a :: Enabled(job, s, a) && Quiet(a)
  {
    var s := states[|actions|];
    QuietRunIsCalm(job, states, actions, |actions|);
    if Ended(s) {
      CommitMeans(content, chunkSize, job, states, actions);
    } else {
      RunsAreSafe(job, states, actions, |actions|);
      var a := SomeoneCanMove(job, s);
    }
  }

  /** What has failed in the generation so far are rejections, and the budget grants a fresh
      address for them: two rejected generations in a row have not gone by without a chunk, or
      this one has landed one. */
  ghost predicate Hopeful(s: State) {
    && !s.phase.GaveUp?
    && (s.phase == Running ==>
          && (s.firstError.Some? ==> s.firstError.value.1 == Rejected)
          && (forall i :: 0 <= i < |s.workers| && s.workers[i].Failing? ==> s.workers[i].failure == Rejected)
          && (Troubled(s) ==> s.stale < STALE_REFRESH_BUDGET - 1 || Progressed(s)))
  }

  ghost predicate Troubled(s: State) {
    s.firstError.Some? || exists i :: 0 <= i < |s.workers| && s.workers[i].Failing?
  }

  ghost predicate Progressed(s: State) {
    s.done > s.doneBefore || exists i :: 0 <= i < |s.workers| && (s.workers[i].Flagged? || s.workers[i].Added?)
  }

  lemma StaysHopeful(job: Job, s: State, a: Action)
    requires Enabled(job, s, a) && Quiet(a) && a != Join(true) && Inv(job, s) && Hopeful(s)
    requires EndedWell(job, Step(job, s, a))
    ensures Hopeful(Step(job, s, a))
  {
    hide InPlace, Shaped, Apart, ErrorOk, Covered, FileOk, Budgeted, SumOf, CountDone, TotalLength, Pending, WriteAt;
    var s' := Step(job, s, a);
    if OfWorker(a) {
      OneWorkerMoves(job, s, a);
      if i :| 0 <= i < |s.workers| && (s.workers[i].Flagged? || s.workers[i].Added?) && i != a.w {
        assert s'.workers[i] == s.workers[i];
      }
      if i :| 0 <= i < |s'.workers| && s'.workers[i].Failing? {
        assert s.workers[i].Failing?;
      }
    }
  }

  /** When every chunk can be opened, a download in which nothing has failed but rejections the
      budget grants can be carried on to its commit. */
  lemma {:induction false} CarriedThrough(job: Job, states: seq<State>, actions: seq<Action>)
    returns (states': seq<State>, actions': seq<Action>)
    requires IsRun(job, states, actions) && Hopeful(states[|actions|])
    requires forall i :: 0 <= i < job.count ==> job.plain(i).Some?
    ensures IsRun(job, states', actions') && states <= states' && actions <= actions'
    ensures states'[|actions'|].phase == Committed
    decreases Measure(job, states[|actions|])
  {
    hide Enabled, Step, Measure, Initial, Inv, Quiet, Hopeful;
    var s := states[|actions|];
    RunsAreSafe(job, states, actions, |actions|);
    if Ended(s) {
      HopefulEnds(s);
      return states, actions;
    }
    var a := SomeoneCanMove(job, s);
    StepKeeps(job, s, a);
    StepDecreases(job, s, a);
    StillHopeful(job, s, a);
    states', actions' := CarriedThrough(job, states + [Step(job, s, a)], actions + [a]);
  }

  lemma HopefulEnds(s: State)
    requires Hopeful(s) && Ended(s)
    ensures s.phase == Committed
  {
  }

  lemma StillHopeful(job: Job, s: State, a: Action)
    requires Enabled(job, s, a) && Quiet(a) && a != Join(true) && Inv(job, s) && Hopeful(s)
    requires Inv(job, Step(job, s, a))
    ensures Hopeful(Step(job, s, a))
  {
    hide Enabled, Step, Quiet, Hopeful;
    StaysHopeful(job, s, a);
  }

  /** So another file than the one sealed can be committed exactly when the server reports no
      chunks of a file that has bytes, or a stride that is not the chunk size of a file of
      several chunks. */
  lemma WrongFileExactly(content: seq<byte>, chunkSize: nat, job: Job)
    requires Reads(job, content, chunkSize)
    ensures (exists states: seq<State>, actions: seq<Action> ::
               && IsRun(job, states, actions) && states[|actions|].phase == Committed
               && states[|actions|].file != content)
            <==> || (job.count == 0 && content != [])
                 || (job.count == ChunkCount(|content|, chunkSize) > 1 && job.stride != chunkSize)
  {
    var n := ChunkCount(|content|, chunkSize);
    CountBounds(|content|, chunkSize);
    hide ChunkCount, Chunk, IsRun;
    forall states: seq<State>, actions: seq<Action> |
      IsRun(job, states, actions) && |states| == |actions| + 1 && states[|actions|].phase == Committed
      ensures states[|actions|].file != content ==>
                (job.count == 0 && content != []) || (job.count == n > 1 && job.stride != chunkSize)
    {
      CommitMeans(content, chunkSize, job, states, actions);
    }
    if (job.count == 0 && content != []) || (job.count == n > 1 && job.stride != chunkSize) {
      var states, actions := FromTheStart(job);
      CommitMeans(content, chunkSize, job, states, actions);
    }
  }

  lemma FromTheStart(job: Job) returns (states: seq<State>, actions: seq<Action>)
    requires forall i :: 0 <= i < job.count ==> job.plain(i).Some?
    ensures IsRun(job, states, actions) && |states| == |actions| + 1 && states[|actions|].phase == Committed
  {
    states, actions := CarriedThrough(job, [Initial(job)], []);
  }
}
