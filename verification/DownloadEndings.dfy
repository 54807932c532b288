/** How a generation of the download ends, and how the download does (`download_file` and
    `presigned_refresh_decision`, cli/src/commands.rs), told by what happened in the run alone:
    which failure was recorded first, whether a chunk landed, and how many rejections in a row
    came to nothing. */
module DownloadEndings {
  import opened Hashing
  import opened Download

  // ---- what happened -------------------------------------------------------

  /** Where the generation in hand before step `k` began: after the last planning. */
  function Since(actions: seq<Action>, k: nat): (g: nat)
    requires k <= |actions|
    ensures g <= k
    ensures forall t :: g <= t < k ==> !actions[t].Plan?
  {
    if k == 0 then 0 else if actions[k - 1].Plan? then k else Since(actions, k - 1)
  }

  /** A chunk landed in steps `g..k`. */
  ghost predicate LandedIn(actions: seq<Action>, g: nat, k: nat)
    requires k <= |actions|
  {
    exists t :: g <= t < k && actions[t].Flag?
  }

  /** What a recording worker records. */
  function Recorded(s: State, a: Action): Option<Failure> {
    if a.Record? && a.w < |s.workers| && s.workers[a.w].Failing? then Some(s.workers[a.w].failure) else None
  }

  /** The first failure recorded in steps `g..k`. */
  function FirstRecorded(states: seq<State>, actions: seq<Action>, g: nat, k: nat): Option<Failure>
    requires k <= |actions| < |states|
  {
    if k <= g then None
    else
      var before := FirstRecorded(states, actions, g, k - 1);
      if before.Some? then before else Recorded(states[k - 1], actions[k - 1])
  }

  /** How many rejected generations in a row, before step `k`, have landed nothing. */
  ghost function Fruitless(states: seq<State>, actions: seq<Action>, k: nat): nat
    requires k <= |actions| < |states|
  {
    if k == 0 then 0
    else
      var before := Fruitless(states, actions, k - 1);
      var g := Since(actions, k - 1);
      if !actions[k - 1].Join? || FirstRecorded(states, actions, g, k - 1) != Some(Rejected) then before
      else if LandedIn(actions, g, k - 1) then 0
      else before + 1
  }

  // ---- the books agree -----------------------------------------------------

  /** The recorded error and the tally say what happened in the generation. */
  ghost predicate Booked(states: seq<State>, actions: seq<Action>, k: nat)
    requires k <= |actions| < |states|
  {
    var s, g := states[k], Since(actions, k);
    s.phase == Running ==>
      && FirstRecorded(states, actions, g, k) == (if s.firstError.Some? then Some(s.firstError.value.1) else None)
      && s.doneBefore <= CountDone(s.completed)
      && (LandedIn(actions, g, k) <==> s.doneBefore < CountDone(s.completed))
  }

  lemma FlagCounts(job: Job, s: State, a: Action)
    requires OfWorker(a) && Enabled(job, s, a) && Inv(job, s)
    ensures var s' := Step(job, s, a);
            && s'.phase == s.phase == Running && s'.doneBefore == s.doneBefore
            && CountDone(s'.completed) == CountDone(s.completed) + (if a.Flag? then 1 else 0)
            && s'.firstError == (if s.firstError.None? && Recorded(s, a).Some?
                                 then Some((s.workers[a.w].slot, s.workers[a.w].failure)) else s.firstError)
  {
    hide InPlace, Apart, ErrorOk, Covered, FileOk, Tallied, Budgeted, EndedWell, CountDone, SumOf, WriteAt;
    assert WorkerOk(job, s, s.workers[a.w]);
    if a.Flag? {
      CompleteOne(job, s.completed, s.pending[s.workers[a.w].slot]);
    }
  }

  lemma WorkerBooks(job: Job, states: seq<State>, actions: seq<Action>, k: nat)
    requires IsRun(job, states, actions) && k < |actions| && OfWorker(actions[k]) && Inv(job, states[k])
    requires Booked(states, actions, k)
    ensures Booked(states, actions, k + 1)
  {
    FlagCounts(job, states[k], actions[k]);
    hide Enabled, Step, Inv, CountDone, Recorded;
    var g := Since(actions, k);
    assert Since(actions, k + 1) == g;
    if actions[k].Flag? {
      assert LandedIn(actions, g, k + 1);
    }
    assert LandedIn(actions, g, k + 1) <==> LandedIn(actions, g, k) || actions[k].Flag?;
  }

  lemma LoopBooks(job: Job, states: seq<State>, actions: seq<Action>, k: nat)
    requires IsRun(job, states, actions) && k < |actions| && !OfWorker(actions[k]) && Inv(job, states[k])
    ensures Booked(states, actions, k + 1)
  {
    hide InPlace, Shaped, WorkersOk, Apart, ErrorOk, Covered, FileOk, Budgeted, EndedWell, CountDone, SumOf,
      TotalLength, Pending;
  }

  lemma {:induction false} BooksAgree(job: Job, states: seq<State>, actions: seq<Action>, k: nat)
    requires IsRun(job, states, actions) && k < |states|
    ensures Booked(states, actions, k) && states[k].stale == Fruitless(states, actions, k)
    decreases k
  {
    if k == 0 {
      assert states[0] == Initial(job);
    } else {
      hide Booked, Enabled, Step, Inv, Initial;
      BooksAgree(job, states, actions, k - 1);
      RunsAreSafe(job, states, actions, k - 1);
      if OfWorker(actions[k - 1]) {
        WorkerBooks(job, states, actions, k - 1);
      } else {
        LoopBooks(job, states, actions, k - 1);
      }
      StaleBooks(job, states, actions, k - 1);
    }
  }

  lemma StaleBooks(job: Job, states: seq<State>, actions: seq<Action>, k: nat)
    requires IsRun(job, states, actions) && k < |actions| && Inv(job, states[k])
    requires Booked(states, actions, k) && states[k].stale == Fruitless(states, actions, k)
    ensures states[k + 1].stale == Fruitless(states, actions, k + 1)
  {
    StaleAfter(job, states[k], actions[k]);
    if actions[k].Join? {
      CleanGenerationFinishes(job, states[k], actions[k].refused);
    }
    hide Inv, CountDone, LandedIn, FirstRecorded, Step;
  }

  // ---- how a generation ends -----------------------------------------------

  /** The budget: a chunk landed in the generation, or fewer than two rejected generations in a
      row before it came to nothing. */
  ghost predicate Granted(states: seq<State>, actions: seq<Action>, k: nat)
    requires k <= |actions| < |states|
  {
    LandedIn(actions, Since(actions, k), k) || Fruitless(states, actions, k) < STALE_REFRESH_BUDGET - 1
  }

  /** Where a joined generation leads, by its first failure, the budget and the server's answer
      to the request for a fresh address. */
  ghost function After(failure: Option<Failure>, granted: bool, refused: bool): Phase {
    match failure
    case None => Planning
    case Some(Other(code)) => GaveUp(Storage(Other(code)))
    case Some(Rejected) =>
      if !granted then GaveUp(StaleAddress) else if refused then GaveUp(RefreshRefused) else Planning
  }

  /** The step a joined generation ends with: where it leads, and, on a fresh address, that the
      next generation is over exactly the chunks left. */
  ghost predicate JoinedTo(job: Job, s: State, s': State, failure: Option<Failure>, granted: bool, refused: bool) {
    && s'.phase == After(failure, granted, refused)
    && s'.refreshes == s.refreshes + (if failure == Some(Rejected) && s'.phase == Planning then 1 else 0)
    && s'.completed == s.completed && s'.file == s.file
    && (failure.None? <==> forall i :: 0 <= i < |s.completed| ==> s.completed[i])
    && (failure.Some? && s'.phase == Planning ==> forall renamed ::
          var next := PlanStep(job, s', renamed);
          next.phase == Running && next.pending == Pending(s.completed) != [])
  }

  lemma ShapedCount(job: Job, s: State)
    requires Shaped(job, s)
    ensures |s.completed| == job.count
  {
  }

  lemma JoinStepMeans(job: Job, s: State, refused: bool)
    requires Inv(job, s) && Enabled(job, s, Join(refused))
    ensures var failure := if s.firstError.Some? then Some(s.firstError.value.1) else None;
            var granted := s.doneBefore < CountDone(s.completed) || s.stale < STALE_REFRESH_BUDGET - 1;
            JoinedTo(job, s, Step(job, s, Join(refused)), failure, granted, refused)
  {
    hide Shaped, WorkersOk, Apart, ErrorOk, Covered, FileOk, Tallied, Budgeted, CountDone, Pending;
    CleanGenerationFinishes(job, s, refused);
    ShapedCount(job, s);
    AllOrMissing(s.completed);
    if i :| 0 <= i < |s.completed| && !s.completed[i] {
      PendingHolds(s.completed, i);
    }
  }

  /** Over every run, exactly how a joined generation ends: with nothing recorded every chunk
      has landed; a failure that is no rejection ends the download with it; a rejection the
      budget grants, and the server does not refuse, gets a fresh address and a next generation
      over exactly the chunks left. */
  lemma JoinDecides(job: Job, states: seq<State>, actions: seq<Action>, k: nat)
    requires IsRun(job, states, actions) && k < |actions| && actions[k].Join?
    ensures var failure := FirstRecorded(states, actions, Since(actions, k), k);
            JoinedTo(job, states[k], states[k + 1], failure, Granted(states, actions, k), actions[k].refused)
  {
    RunsAreSafe(job, states, actions, k);
    BooksAgree(job, states, actions, k);
    JoinRuns(job, states, actions, k);
    hide Inv, CountDone, LandedIn, FirstRecorded, Fruitless, JoinedTo, IsRun, Step, Enabled;
    JoinStepMeans(job, states[k], actions[k].refused);
  }

  lemma JoinRuns(job: Job, states: seq<State>, actions: seq<Action>, k: nat)
    requires IsRun(job, states, actions) && k < |actions| && actions[k].Join?
    ensures states[k].phase == Running && Enabled(job, states[k], actions[k])
    ensures states[k + 1] == Step(job, states[k], Join(actions[k].refused))
  {
  }

  lemma AllOrMissing(completed: seq<bool>)
    ensures CountDone(completed) == |completed| <==> forall i :: 0 <= i < |completed| ==> completed[i]
  {
    hide CountDone;
    if i :| 0 <= i < |completed| && !completed[i] {
      MissingOne(completed, i);
    } else {
      AllDone(completed);
    }
  }

  // ---- how the download ends -----------------------------------------------

  /** Why a download ended with its last step. */
  ghost predicate EndedBy(states: seq<State>, actions: seq<Action>, phase: Phase)
    requires 0 < |actions| < |states|
  {
    var k := |actions| - 1;
    var a, failure := actions[k], FirstRecorded(states, actions, Since(actions, k), k);
    match phase
    case Committed => a == Action.Plan(true)
    case GaveUp(NotRenamed) => a == Action.Plan(false)
    case GaveUp(RefreshRefused) => a == Join(true) && failure == Some(Rejected) && Granted(states, actions, k)
    case GaveUp(StaleAddress) => a.Join? && failure == Some(Rejected) && !Granted(states, actions, k)
    case GaveUp(Storage(f)) => a.Join? && failure == Some(f) && f != Rejected
    case _ => false
  }

  /** Over every run, every end has its cause: the download gives up as refused only where the
      server refuses a fresh address the budget grants, gives up on the address only without
      the budget, and otherwise with the first failure its last generation recorded. */
  lemma EndsOnlyBy(job: Job, states: seq<State>, actions: seq<Action>)
    requires IsRun(job, states, actions) && Ended(states[|actions|])
    ensures |actions| > 0 && EndedBy(states, actions, states[|actions|].phase)
  {
    hide Step, Enabled, FirstRecorded, Granted, Inv;
    RunsAreSafe(job, states, actions, |actions|);
    if |actions| > 0 {
      var k := |actions| - 1;
      if actions[k].Join? {
        JoinDecides(job, states, actions, k);
      } else {
        NotJoined(job, states[k], actions[k]);
      }
    }
  }

  lemma NotJoined(job: Job, s: State, a: Action)
    requires Enabled(job, s, a) && !a.Join? && Ended(Step(job, s, a)) && Inv(job, Step(job, s, a))
    ensures var phase := Step(job, s, a).phase;
            (a == Action.Plan(true) && phase == Committed) || (a == Action.Plan(false) && phase == GaveUp(NotRenamed))
  {
    assert EndedWell(job, Step(job, s, a));
    hide Inv, Pending;
  }

  // ---- every failure happened ----------------------------------------------

  /** A worker failed so in steps `g..k`. */
  ghost predicate FailedIn(actions: seq<Action>, g: nat, k: nat, failure: Failure)
    requires k <= |actions|
  {
    exists t :: g <= t < k && actions[t].Fail? && actions[t].failure == failure
  }

  /** A worker that is failing has failed in this generation, and so. */
  lemma {:induction false} FailingHasFailed(job: Job, states: seq<State>, actions: seq<Action>, k: nat, w: nat)
    requires IsRun(job, states, actions) && k < |states|
    requires states[k].phase == Running && w < |states[k].workers| && states[k].workers[w].Failing?
    ensures FailedIn(actions, Since(actions, k), k, states[k].workers[w].failure)
    decreases k
  {
    hide Enabled, Step;
    if k > 0 {
      var s, a := states[k - 1], actions[k - 1];
      FailingComesFrom(job, s, a, w);
      if a.Fail? && a.w == w {
        assert actions[k - 1].Fail?;
      } else {
        FailingHasFailed(job, states, actions, k - 1, w);
      }
    }
  }

  lemma FailingComesFrom(job: Job, s: State, a: Action, w: nat)
    requires Enabled(job, s, a)
    requires var s' := Step(job, s, a); s'.phase == Running && w < |s'.workers| && s'.workers[w].Failing?
    ensures !a.Plan?
    ensures var s' := Step(job, s, a);
            if a.Fail? && a.w == w then s'.workers[w].failure == a.failure
            else s.phase == Running && w < |s.workers| && s.workers[w] == s'.workers[w]
  {
  }

  lemma {:induction false} RecordedHasFailed(job: Job, states: seq<State>, actions: seq<Action>, k: nat, j: nat)
    requires IsRun(job, states, actions) && k <= j <= |actions| && Since(actions, k) == Since(actions, j)
    requires FirstRecorded(states, actions, Since(actions, j), k).Some?
    ensures FailedIn(actions, Since(actions, j), j, FirstRecorded(states, actions, Since(actions, j), k).value)
    decreases k
  {
    var g := Since(actions, j);
    if k > g {
      assert Since(actions, k - 1) == g;
      if FirstRecorded(states, actions, g, k - 1).Some? {
        RecordedHasFailed(job, states, actions, k - 1, j);
      } else {
        assert Enabled(job, states[k - 1], actions[k - 1]);
        FailingHasFailed(job, states, actions, k - 1, actions[k - 1].w);
      }
    }
  }

  /** Over every run, a download that gives up with a failure of storage gives up with one that
      a worker of its last generation met. */
  lemma StorageFailureHappened(job: Job, states: seq<State>, actions: seq<Action>)
    requires IsRun(job, states, actions) && |states| == |actions| + 1
    requires states[|actions|].phase.GaveUp? && states[|actions|].phase.why.Storage?
    ensures |actions| > 0
    ensures var k := |actions| - 1;
            FailedIn(actions, Since(actions, k), k, states[|actions|].phase.why.failure)
  {
    hide Step, Enabled, FirstRecorded, Granted, FailedIn, IsRun, Since;
    EndsOnlyBy(job, states, actions);
    RecordedHasFailed(job, states, actions, |actions| - 1, |actions| - 1);
  }

  // ---- stopping after a failure --------------------------------------------

  /** This worker failed in steps `g..k`. */
  ghost predicate FailedBy(actions: seq<Action>, g: nat, k: nat, w: nat)
    requires k <= |actions|
  {
    exists t :: g <= t < k && actions[t].Fail? && actions[t].w == w
  }

  ghost predicate RaisedIn(actions: seq<Action>, g: nat, k: nat)
    requires k <= |actions|
  {
    exists t :: g <= t < k && actions[t].Raise?
  }

  predicate OnItsWayOut(w: Worker) {
    w.Failing? || w.Raising? || w.Exited?
  }

  /** The flag is up exactly if raised in the generation, an error recorded is raised or about to
      be, and a worker that failed is on its way out. */
  ghost predicate Stopping(states: seq<State>, actions: seq<Action>, k: nat)
    requires k <= |actions| < |states|
  {
    var s, g := states[k], Since(actions, k);
    s.phase == Running ==>
      && (s.aborting <==> RaisedIn(actions, g, k))
      && (s.firstError.Some? ==> s.aborting || exists i :: 0 <= i < |s.workers| && s.workers[i].Raising?)
      && forall w: nat :: w < |s.workers| && FailedBy(actions, g, k, w) ==> OnItsWayOut(s.workers[w])
  }

  lemma WorkerStops(job: Job, s: State, a: Action)
    requires OfWorker(a) && Enabled(job, s, a)
    requires s.firstError.Some? ==> s.aborting || exists i :: 0 <= i < |s.workers| && s.workers[i].Raising?
    ensures var s' := Step(job, s, a);
            && s.phase == s'.phase == Running && |s'.workers| == |s.workers|
            && (s'.aborting <==> s.aborting || a.Raise?)
            && (s'.firstError.Some? ==> s'.aborting || exists i :: 0 <= i < |s'.workers| && s'.workers[i].Raising?)
            && (forall w :: 0 <= w < |s.workers| && OnItsWayOut(s.workers[w]) ==> OnItsWayOut(s'.workers[w]))
            && (a.Fail? ==> OnItsWayOut(s'.workers[a.w]))
  {
    hide WriteAt, Length;
    var s' := Step(job, s, a);
    OneWorkerMoves(job, s, a);
    if s'.firstError.Some? && !s'.aborting {
      if a.Record? {
        assert s'.workers[a.w].Raising?;
      } else {
        var i :| 0 <= i < |s.workers| && s.workers[i].Raising?;
        assert s'.workers[i].Raising?;
      }
    }
  }

  lemma LoopStops(job: Job, states: seq<State>, actions: seq<Action>, k: nat)
    requires IsRun(job, states, actions) && k < |actions| && !OfWorker(actions[k])
    ensures Stopping(states, actions, k + 1)
  {
    hide Pending;
  }

  lemma {:induction false} AlwaysStopping(job: Job, states: seq<State>, actions: seq<Action>, k: nat)
    requires IsRun(job, states, actions) && k < |states|
    ensures Stopping(states, actions, k)
    decreases k
  {
    hide Enabled, Step, OnItsWayOut;
    if k > 0 {
      AlwaysStopping(job, states, actions, k - 1);
      if OfWorker(actions[k - 1]) {
        OneStops(job, states, actions, k - 1);
      } else {
        LoopStops(job, states, actions, k - 1);
      }
    }
  }

  lemma OneStops(job: Job, states: seq<State>, actions: seq<Action>, k: nat)
    requires IsRun(job, states, actions) && k < |actions| && OfWorker(actions[k]) && Stopping(states, actions, k)
    ensures Stopping(states, actions, k + 1)
  {
    hide Enabled, Step, OnItsWayOut, Initial;
    var a, g := actions[k], Since(actions, k);
    RunsOn(job, states[k], a);
    WorkerStops(job, states[k], a);
    assert Since(actions, k + 1) == g;
    assert RaisedIn(actions, g, k + 1) <==> RaisedIn(actions, g, k) || a.Raise? by {
      assert a.Raise? ==> RaisedIn(actions, g, k + 1);
    }
    var workers, next := states[k + 1].workers, k + 1;
    forall w: nat | w < |workers| && FailedBy(actions, g, next, w) ensures OnItsWayOut(workers[w]) {
      assert FailedBy(actions, g, k, w) || (a.Fail? && a.w == w);
    }
  }

  lemma RunsOn(job: Job, s: State, a: Action)
    requires OfWorker(a) && Enabled(job, s, a)
    ensures s.phase == Running
  {
  }

  /** Over every run, a worker that has failed claims no chunk any more in its generation, the
      flag that stops the others is up exactly once it was raised, and a generation joined with
      a failure recorded has raised it. */
  lemma FailureStops(job: Job, states: seq<State>, actions: seq<Action>, k: nat)
    requires IsRun(job, states, actions) && k < |actions|
    ensures var s, a, g := states[k], actions[k], Since(actions, k);
            && (a.Claim? ==> !FailedBy(actions, g, k, a.w))
            && (s.phase == Running ==> (s.aborting <==> RaisedIn(actions, g, k)))
            && (a.Join? && FirstRecorded(states, actions, g, k).Some? ==> RaisedIn(actions, g, k))
  {
    hide FirstRecorded, FailedBy, RaisedIn, Since;
    AlwaysStopping(job, states, actions, k);
    BooksAgree(job, states, actions, k);
  }

  /** With the flag up, some thread can move without claiming a chunk. */
  lemma SomeoneCanLeave(job: Job, s: State) returns (a: Action)
    requires Inv(job, s) && s.phase == Running && s.aborting
    ensures Enabled(job, s, a) && !a.Claim? && !a.Plan? && (a.Join? || Step(job, s, a).aborting)
    ensures !a.Join? ==> Step(job, s, a).phase == Running
  {
    hide Apart, ErrorOk, Covered, FileOk, Tallied, Budgeted, EndedWell, InPlace, Shaped, WorkersOk, WriteAt;
    if w: nat :| w < |s.workers| && s.workers[w] != Exited {
      match s.workers[w]
      case AtTop => a := Leave(w);
      case Claimed(slot) => a := if job.plain(ChunkAt(s, slot)).Some? then Write(w) else Fail(w, Rejected, 0);
      case Wrote(_) => a := Flag(w);
      case Flagged(_) => a := AddLength(w);
      case Added(_) => a := AddDone(w);
      case Failing(_, _) => a := Action.Record(w);
      case Raising => a := Raise(w);
    } else {
      a := Join(false);
    }
  }

  /** Once the flag is up, any run can be carried on to the end of its generation with no chunk
      claimed any more. */
  lemma {:induction false} GenerationWindsDown(job: Job, states: seq<State>, actions: seq<Action>)
    returns (states': seq<State>, actions': seq<Action>)
    requires IsRun(job, states, actions) && states[|actions|].phase == Running && states[|actions|].aborting
    ensures IsRun(job, states', actions') && states <= states' && actions < actions'
    ensures actions'[|actions'| - 1].Join? && forall i :: |actions| <= i < |actions'| ==> !actions'[i].Claim?
    decreases Measure(job, states[|actions|])
  {
    hide Enabled, Step, Measure, Initial, Inv;
    var s := states[|actions|];
    RunsAreSafe(job, states, actions, |actions|);
    var a := SomeoneCanLeave(job, s);
    StepKeeps(job, s, a);
    StepDecreases(job, s, a);
    var more := actions + [a];
    if a.Join? {
      return states + [Step(job, s, a)], more;
    }
    states', actions' := GenerationWindsDown(job, states + [Step(job, s, a)], more);
    assert actions'[|actions|] == more[|actions|] == a;
  }

  // ---- past rejections to a commit -----------------------------------------

  /** When every chunk opens, a run that has not given up and whose only failures are rejections
      the budget grants can be carried on to a commit. */
  lemma CarriedPastRejections(job: Job, states: seq<State>, actions: seq<Action>)
    returns (states': seq<State>, actions': seq<Action>)
    requires IsRun(job, states, actions) && !states[|actions|].phase.GaveUp?
    requires forall i :: 0 <= i < job.count ==> job.plain(i).Some?
    requires forall t :: 0 <= t < |actions| && actions[t].Fail? ==> actions[t].failure == Rejected
    requires var g := Since(actions, |actions|);
             Granted(states, actions, |actions|) || forall t :: g <= t < |actions| ==> !actions[t].Fail?
    ensures IsRun(job, states', actions') && states <= states' && actions <= actions'
    ensures states'[|actions'|].phase == Committed
  {
    RejectionsLeaveHope(job, states, actions);
    states', actions' := CarriedThrough(job, states, actions);
  }

  lemma RejectionsLeaveHope(job: Job, states: seq<State>, actions: seq<Action>)
    requires IsRun(job, states, actions) && !states[|actions|].phase.GaveUp?
    requires forall t :: 0 <= t < |actions| && actions[t].Fail? ==> actions[t].failure == Rejected
    requires var g := Since(actions, |actions|);
             Granted(states, actions, |actions|) || forall t :: g <= t < |actions| ==> !actions[t].Fail?
    ensures Hopeful(states[|actions|])
  {
    hide Enabled, Step, Initial;
    var n := |actions|;
    var s, g := states[n], Since(actions, n);
    RunsAreSafe(job, states, actions, n);
    BooksAgree(job, states, actions, n);
    if s.phase == Running {
      forall w: nat | w < |s.workers| && s.workers[w].Failing?
        ensures s.workers[w].failure == Rejected && exists t :: g <= t < n && actions[t].Fail?
      {
        FailingHasFailed(job, states, actions, n, w);
      }
      if s.firstError.Some? {
        RecordedHasFailed(job, states, actions, n, n);
      }
      if LandedIn(actions, g, n) {
        LandedShows(job, s);
      }
    }
  }

  lemma LandedShows(job: Job, s: State)
    requires Inv(job, s) && s.phase == Running && s.doneBefore < CountDone(s.completed)
    ensures Progressed(s)
  {
    hide CountDone, TotalLength;
    if forall i :: 0 <= i < |s.workers| ==> !s.workers[i].Flagged? && !s.workers[i].Added? {
      NoneUncounted(s.workers);
    }
  }

  lemma {:induction false} NoneUncounted(ws: seq<Worker>)
    requires forall i :: 0 <= i < |ws| ==> !ws[i].Flagged? && !ws[i].Added?
    ensures SumOf(ws, Uncounted) == 0
  {
    if ws != [] {
      NoneUncounted(ws[1..]);
    }
  }
}
