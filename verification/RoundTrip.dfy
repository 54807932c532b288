/** A file from its upload, through any number of interrupted and resumed runs, to its
    download (`upload_file`, `try_resume` and `download_file`, cli/src/commands.rs). */
module RoundTrip {
  import opened Hashing
  import opened Layout
  import U = UploadPipeline
  import D = Download

  datatype File = File(dek: nat, fileId: nat, content: seq<byte>, chunkSize: nat)

  ghost predicate IsFile(f: File) {
    f.chunkSize >= 1
  }

  function Count(f: File): nat {
    if f.chunkSize >= 1 then ChunkCount(|f.content|, f.chunkSize) else 0
  }

  /** Part `p` is chunk `p - 1`, sealed. */
  function SealPart(f: File): int -> seq<Cell> {
    (p: int) =>
      if f.chunkSize >= 1 && 1 <= p <= Count(f)
      then Wire(EnvelopeOf(f.dek, f.fileId, f.content, f.chunkSize, p - 1)) else []
  }

  /** One run of `upload_parts`, up to where it ended or was cut off: of the fan-out, or of the
      serial loop, which has `sent` parts of its plan and has returned well if `ok`. */
  datatype Session<Tag> =
    | FanOut(plan: seq<int>, workers: nat, capacity: nat, states: seq<U.State<seq<Cell>, Tag>>, actions: seq<U.Action>)
    | Serial(plan: seq<int>, sent: nat, ok: bool)

  function UploadJob<Tag>(f: File, tag: seq<Cell> -> Tag, s: Session<Tag>): U.Job<seq<Cell>, Tag> {
    match s
    case FanOut(plan, workers, capacity, _, _) => U.Job(plan, workers, capacity, SealPart(f), tag)
    case Serial(plan, _, _) => U.Job(plan, 1, 0, SealPart(f), tag)
  }

  /** What a session leaves in storage. */
  ghost function Left<Tag>(f: File, tag: seq<Cell> -> Tag, before: map<int, seq<Cell>>,
                           s: Session<Tag>): map<int, seq<Cell>> {
    match s
    case FanOut(_, _, _, states, actions) => if |states| == |actions| + 1 then states[|actions|].store else before
    case Serial(plan, sent, _) => if sent <= |plan| then U.SerialStore(UploadJob(f, tag, s), before, sent) else before
  }

  /** What storage holds after the sessions so far. */
  ghost function StoreAfter<Tag>(f: File, tag: seq<Cell> -> Tag, sessions: seq<Session<Tag>>): map<int, seq<Cell>> {
    if sessions == [] then map[]
    else
      var k := |sessions| - 1;
      Left(f, tag, StoreAfter(f, tag, sessions[..k]), sessions[k])
  }

  ghost predicate Distinct(plan: seq<int>) {
    forall i, j :: 0 <= i < j < |plan| ==> plan[i] != plan[j]
  }

  /** The session ran as its loop runs. */
  ghost predicate Ran<Tag>(f: File, tag: seq<Cell> -> Tag, before: map<int, seq<Cell>>, s: Session<Tag>) {
    match s
    case FanOut(_, workers, _, states, actions) =>
      workers >= 1 && U.IsRun(UploadJob(f, tag, s), before, states, actions)
    case Serial(plan, sent, ok) => sent <= |plan| && (ok ==> sent == |plan|)
  }

  /** And to a good end. */
  ghost predicate EndedWell<Tag>(f: File, tag: seq<Cell> -> Tag, s: Session<Tag>) {
    match s
    case FanOut(_, _, _, states, actions) =>
      && |states| == |actions| + 1 && U.Joined(states[|actions|])
      && U.Outcome(UploadJob(f, tag, s), states[|actions|]).Ok?
    case Serial(_, _, ok) => ok
  }

  /** A session is over exactly the parts storage does not yet hold. */
  ghost predicate Continues<Tag>(f: File, tag: seq<Cell> -> Tag, before: map<int, seq<Cell>>, s: Session<Tag>) {
    && Ran(f, tag, before, s) && Distinct(s.plan)
    && forall p :: p in s.plan <==> 1 <= p <= Count(f) && p !in before
  }

  /** What either loop leaves: what was there, and sealed parts of its plan; all of them if it
      ended well. */
  lemma SessionStores<Tag>(f: File, tag: seq<Cell> -> Tag, before: map<int, seq<Cell>>, s: Session<Tag>, p: int)
    requires Ran(f, tag, before, s)
    ensures var after := Left(f, tag, before, s);
            && (p in before ==> p in after)
            && (p in after ==> (p in s.plan && after[p] == SealPart(f)(p)) || (p in before && after[p] == before[p]))
            && (EndedWell(f, tag, s) && p in s.plan ==> p in after && after[p] == SealPart(f)(p))
  {
    hide SealPart, U.Finalized;
    var job := UploadJob(f, tag, s);
    match s
    case FanOut(_, _, _, states, actions) =>
      U.RunsAccount(job, before, states, actions, |actions|);
      if EndedWell(f, tag, s) {
        U.FanOutRefinesSerial(job, before, states, actions);
      }
    case Serial(plan, sent, ok) =>
      U.SerialStoreMeans(job, before, sent, p);
      assert plan[..|plan|] == plan;
  }

  ghost predicate Chain<Tag>(f: File, tag: seq<Cell> -> Tag, sessions: seq<Session<Tag>>) {
    sessions == [] ||
    var k := |sessions| - 1;
    Chain(f, tag, sessions[..k]) && Continues(f, tag, StoreAfter(f, tag, sessions[..k]), sessions[k])
  }

  /** Storage holds parts of this file and nothing else. */
  ghost predicate Sealed(f: File, store: map<int, seq<Cell>>) {
    forall p :: p in store ==> 1 <= p <= Count(f) && store[p] == SealPart(f)(p)
  }

  /** However often the upload is cut off, and wherever, what storage holds are sealed parts
      of the file. */
  lemma {:induction false} StoreIsSealed<Tag>(f: File, tag: seq<Cell> -> Tag, sessions: seq<Session<Tag>>)
    requires Chain(f, tag, sessions)
    ensures Sealed(f, StoreAfter(f, tag, sessions))
  {
    if sessions != [] {
      var k := |sessions| - 1;
      var before := StoreAfter(f, tag, sessions[..k]);
      StoreIsSealed(f, tag, sessions[..k]);
      hide SealPart, Chain, Count, Ran, Left;
      forall p | p in StoreAfter(f, tag, sessions)
        ensures 1 <= p <= Count(f) && StoreAfter(f, tag, sessions)[p] == SealPart(f)(p)
      {
        SessionStores(f, tag, before, sessions[k], p);
      }
    }
  }

  // ---- the list given to `complete` ----------------------------------------

  /** What the resume answer lists: every stored part once, with the tag of its bytes. */
  ghost predicate Lists<Tag>(tag: seq<Cell> -> Tag, store: map<int, seq<Cell>>, parts: seq<U.PartInput<Tag>>) {
    && (forall n :: U.PartCount(parts, n) == if n in store then 1 else 0)
    && (forall i :: 0 <= i < |parts| ==> parts[i].number in store && parts[i].etag == tag(store[parts[i].number]))
  }

  lemma {:induction false} PartCountAppend<Tag>(a: seq<U.PartInput<Tag>>, b: seq<U.PartInput<Tag>>, n: int)
    ensures U.PartCount(a + b, n) == U.PartCount(a, n) + U.PartCount(b, n)
  {
    if b == [] {
      assert a + b == a;
    } else {
      var k := |b| - 1;
      assert (a + b)[..|a| + k] == a + b[..k];
      PartCountAppend(a, b[..k], n);
    }
  }

  lemma {:induction false} DistinctCount(plan: seq<int>, n: int)
    requires Distinct(plan)
    ensures U.PlanCount(plan, n) == if n in plan then 1 else 0
  {
    if plan != [] {
      DistinctCount(plan[1..], n);
    }
  }

  lemma FinalizedCount<Tag>(job: U.Job<seq<Cell>, Tag>, n: int)
    ensures U.AllMade(job, U.Finalized(job))
    ensures U.PartCount(U.Finalized(job), n) == U.PlanCount(job.plan, n)
  {
    var parts := U.InPlanOrder(job);
    U.SortSorts(parts);
    U.SortKeepsMade(job, parts);
    U.PartCountIsMultiset(job, U.Finalized(job), n);
    U.PlanCountIsPartCount(job, job.plan, parts, n);
  }

  lemma {:induction false} ListedIsCounted<Tag>(parts: seq<U.PartInput<Tag>>, i: nat)
    requires i < |parts|
    ensures U.PartCount(parts, parts[i].number) >= 1
  {
    if i < |parts| - 1 {
      ListedIsCounted(parts[..|parts| - 1], i);
    }
  }

  /** The last session ended well. */
  ghost predicate Finishes<Tag>(f: File, tag: seq<Cell> -> Tag, sessions: seq<Session<Tag>>) {
    sessions != [] && Chain(f, tag, sessions) && EndedWell(f, tag, sessions[|sessions| - 1])
  }

  /** What `upload_parts` returned. */
  ghost function Delivered<Tag>(f: File, tag: seq<Cell> -> Tag, sessions: seq<Session<Tag>>): seq<U.PartInput<Tag>>
    requires Finishes(f, tag, sessions)
  {
    var s := sessions[|sessions| - 1];
    match s
    case FanOut(_, _, _, states, actions) => U.Outcome(UploadJob(f, tag, s), states[|actions|]).value
    case Serial(_, _, _) => U.Finalized(UploadJob(f, tag, s))
  }

  /** When the upload finishes, on the first run or after any number of interrupted ones,
      storage holds exactly the file's parts, each as sealed. */
  lemma FinishedStore<Tag>(f: File, tag: seq<Cell> -> Tag, sessions: seq<Session<Tag>>)
    requires Finishes(f, tag, sessions)
    ensures Sealed(f, StoreAfter(f, tag, sessions))
    ensures forall p :: 1 <= p <= Count(f) ==> p in StoreAfter(f, tag, sessions)
  {
    var k := |sessions| - 1;
    StoreIsSealed(f, tag, sessions);
    hide SealPart, Count, Ran, Left, EndedWell;
    forall p | 1 <= p <= Count(f) ensures p in StoreAfter(f, tag, sessions) {
      SessionStores(f, tag, StoreAfter(f, tag, sessions[..k]), sessions[k], p);
    }
  }

  lemma SentCount<Tag>(f: File, tag: seq<Cell> -> Tag, sessions: seq<Session<Tag>>, n: int)
    requires Finishes(f, tag, sessions)
    ensures U.PartCount(Delivered(f, tag, sessions), n)
            == if 1 <= n <= Count(f) && n !in StoreAfter(f, tag, sessions[..|sessions| - 1]) then 1 else 0
    ensures U.AllMade(UploadJob(f, tag, sessions[|sessions| - 1]), Delivered(f, tag, sessions))
  {
    var k := |sessions| - 1;
    var s := sessions[k];
    hide SealPart, Count, Left, U.Outcome, U.Finalized, U.IsRun, U.PartCount, U.PlanCount;
    if s.FanOut? {
      U.FanOutRefinesSerial(UploadJob(f, tag, s), StoreAfter(f, tag, sessions[..k]), s.states, s.actions);
    }
    FinalizedCount(UploadJob(f, tag, s), n);
    DistinctCount(s.plan, n);
  }

  lemma SentTag<Tag>(f: File, tag: seq<Cell> -> Tag, sessions: seq<Session<Tag>>, i: nat)
    requires Finishes(f, tag, sessions) && i < |Delivered(f, tag, sessions)|
    ensures var p, after := Delivered(f, tag, sessions)[i], StoreAfter(f, tag, sessions);
            p.number in after && p.etag == tag(after[p.number])
  {
    var sent := Delivered(f, tag, sessions);
    FinishedStore(f, tag, sessions);
    hide Finishes, Delivered, Count, StoreAfter, U.PartCount;
    ListedIsCounted(sent, i);
    SentCount(f, tag, sessions, sent[i].number);
    assert sent[i] == U.Made(UploadJob(f, tag, sessions[|sessions| - 1]), sent[i].number);
  }

  lemma ListsBefore<Tag>(f: File, tag: seq<Cell> -> Tag, before: map<int, seq<Cell>>, after: map<int, seq<Cell>>,
                         uploaded: seq<U.PartInput<Tag>>)
    requires Lists(tag, before, uploaded) && Sealed(f, before) && Sealed(f, after)
    requires forall p :: 1 <= p <= Count(f) ==> p in after
    ensures forall i :: 0 <= i < |uploaded| ==>
              uploaded[i].number in after && uploaded[i].etag == tag(after[uploaded[i].number])
  {
    hide SealPart, Count, U.PartCount;
  }

  lemma CompleteCounts<Tag>(f: File, tag: seq<Cell> -> Tag, sessions: seq<Session<Tag>>,
                            uploaded: seq<U.PartInput<Tag>>, n: int)
    requires Finishes(f, tag, sessions)
    requires Lists(tag, StoreAfter(f, tag, sessions[..|sessions| - 1]), uploaded)
    ensures U.PartCount(uploaded + Delivered(f, tag, sessions), n) == if 1 <= n <= Count(f) then 1 else 0
  {
    StoreIsSealed(f, tag, sessions[..|sessions| - 1]);
    hide Finishes, Delivered, Count, StoreAfter, SealPart, U.PartCount;
    PartCountAppend(uploaded, Delivered(f, tag, sessions), n);
    SentCount(f, tag, sessions, n);
  }

  /** The list given to `complete`, the parts reported stored and then those just sent, names
      every part of the file exactly once, with the tag of its sealed bytes. */
  lemma CompleteNamesEveryPart<Tag>(f: File, tag: seq<Cell> -> Tag, sessions: seq<Session<Tag>>,
                                    uploaded: seq<U.PartInput<Tag>>)
    requires Finishes(f, tag, sessions)
    requires Lists(tag, StoreAfter(f, tag, sessions[..|sessions| - 1]), uploaded)
    ensures Lists(tag, StoreAfter(f, tag, sessions), uploaded + Delivered(f, tag, sessions))
    ensures forall n :: U.PartCount(uploaded + Delivered(f, tag, sessions), n) == if 1 <= n <= Count(f) then 1 else 0
  {
    var k := |sessions| - 1;
    var before, after := StoreAfter(f, tag, sessions[..k]), StoreAfter(f, tag, sessions);
    var sent := Delivered(f, tag, sessions);
    FinishedStore(f, tag, sessions);
    StoreIsSealed(f, tag, sessions[..k]);
    ListsBefore(f, tag, before, after, uploaded);
    forall n ensures U.PartCount(uploaded + sent, n) == if 1 <= n <= Count(f) then 1 else 0 {
      CompleteCounts(f, tag, sessions, uploaded, n);
    }
    forall i | 0 <= i < |sent| ensures sent[i].number in after && sent[i].etag == tag(after[sent[i].number]) {
      SentTag(f, tag, sessions, i);
    }
    hide Finishes, Delivered, Count, StoreAfter, SealPart, U.PartCount;
  }

  // ---- the object, and back ------------------------------------------------

  /** The object `complete` makes of the stored parts, by part number. */
  ghost function Assemble(store: map<int, seq<Cell>>, k: nat): seq<Cell> {
    if k == 0 then [] else Assemble(store, k - 1) + if k in store then store[k] else []
  }

  lemma {:induction false} AssembledIsObject(f: File, store: map<int, seq<Cell>>, k: nat)
    requires IsFile(f) && Sealed(f, store) && k <= Count(f)
    requires forall p :: 1 <= p <= Count(f) ==> p in store
    ensures Assemble(store, k) == Object(f.dek, f.fileId, f.content, f.chunkSize, k)
  {
    if k > 0 {
      AssembledIsObject(f, store, k - 1);
    }
  }

  /** What a download opens at each index when storage serves the ranges of this object. */
  function Fetched(f: File, stored: seq<Cell>): nat -> Option<seq<byte>> {
    (i: nat) =>
      if i >= Count(f) then None
      else
        var r := ChunkRange(Count(f), f.chunkSize, |stored|, i);
        if r.0 <= r.1 < |stored| then OpenChunk(f.dek, f.fileId, i, Count(f), stored[r.0..r.1 + 1]) else None
  }

  /** The object the finished upload leaves has the declared size, and the ranges of the
      download plan open to the file's chunks. */
  lemma FinishedServes<Tag>(f: File, tag: seq<Cell> -> Tag, sessions: seq<Session<Tag>>, i: nat)
    requires IsFile(f) && Finishes(f, tag, sessions)
    ensures var stored := Assemble(StoreAfter(f, tag, sessions), Count(f));
            && |stored| == StoredSize(|f.content|, f.chunkSize)
            && Fetched(f, stored)(i) == (if i < Count(f) then Some(Chunk(f.content, f.chunkSize, i)) else None)
  {
    FinishedStore(f, tag, sessions);
    AssembledIsObject(f, StoreAfter(f, tag, sessions), Count(f));
    hide Finishes, Object, OpenChunk, Chunk, Assemble, ChunkCount, StoredSize, ChunkRange;
    FetchesChunk(f.dek, f.fileId, f.content, f.chunkSize, if i < Count(f) then i else 0);
  }

  /** The round trip. The upload finished after any number of runs cut off anywhere. Then a
      download of the object it left, under any interleaving and any refused, failing or
      repeated fetches, never gets stuck; one that commits has written the original bytes;
      and it does commit when nothing fails. */
  lemma UploadThenDownload<Tag>(f: File, tag: seq<Cell> -> Tag, sessions: seq<Session<Tag>>, concurrency: nat,
                                states: seq<D.State>, actions: seq<D.Action>)
    requires IsFile(f) && Finishes(f, tag, sessions)
    requires D.IsRun(D.Job(Count(f), f.chunkSize, concurrency,
                           Fetched(f, Assemble(StoreAfter(f, tag, sessions), Count(f)))),
                     states, actions)
    ensures var s, job := states[|actions|],
                          D.Job(Count(f), f.chunkSize, concurrency,
                                Fetched(f, Assemble(StoreAfter(f, tag, sessions), Count(f))));
            && (D.Ended(s) || exists a :: D.Enabled(job, s, a))
            && (s.phase == D.Committed ==> s.file == f.content && s.written == |f.content|)
            && (D.Ended(s) && (forall i :: 0 <= i < |actions| ==> D.Quiet(actions[i])) ==> s.phase == D.Committed)
  {
    var s, job := states[|actions|],
                  D.Job(Count(f), f.chunkSize, concurrency,
                        Fetched(f, Assemble(StoreAfter(f, tag, sessions), Count(f))));
    forall i: nat ensures job.plain(i) == D.Opens(f.content, f.chunkSize, job.count)(i) {
      hide Fetched, Chunk, Assemble, StoredSize, Finishes;
      FinishedServes(f, tag, sessions, i);
    }
    assert D.Reads(job, f.content, f.chunkSize);
    hide *;
    D.EveryRunEnds(job, states, actions);
    if s.phase == D.Committed {
      D.CommitMeans(f.content, f.chunkSize, job, states, actions);
    }
    if forall i :: 0 <= i < |actions| ==> D.Quiet(actions[i]) {
      D.QuietDownloadDelivers(f.content, f.chunkSize, job, states, actions);
    }
  }
}
