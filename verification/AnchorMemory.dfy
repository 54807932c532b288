/** What a client remembers about a server's log between commands, and a command's
    anchoring (`anchor_served`, `update_state`, `cached_verdict`, `check_genesis`,
    cli/src/anchors.rs). */
module AnchorMemory {
  import opened Hashing
  import opened Anchors

  // ---- the genesis check ---------------------------------------------------

  /** An epoch's first entry as the server tells it; `None` where a field is unreadable. */
  datatype Genesis = Genesis(entryId: Option<nat>, version: Option<nat>, epochPurpose: bool, hasIndex: bool,
                             payload: Option<Payload>, createdAt: Option<nat>)

  function CheckGenesis(mode: Mode, f: Files, g: Genesis): bool {
    match mode
    case Legacy => true
    case V3(epoch, key, pinned) =>
      epoch >= 1 &&
      var end := EpochEnd(f.roots, epoch - 1);
      && end.Some?
      && g.entryId == Some(1) && g.version == Some(3) && g.epochPurpose && !g.hasIndex
      && g.payload == Some(Payload(epoch, end.value.logSize, end.value.root, key))
      && g.createdAt.Some?
      && GenesisHash(g.payload.value, g.createdAt.value) == pinned
  }

  /** Whoever passes the check under one pinned hash, from whatever files and whatever the
      server told them, has the same epoch and key and the same end of the epoch before. */
  lemma GenesisBinds(m: Mode, f: Files, g: Genesis, m': Mode, f': Files, g': Genesis)
    requires m.V3? && m'.V3? && m.genesis == m'.genesis
    requires CheckGenesis(m, f, g) && CheckGenesis(m', f', g')
    ensures m == m' && g == g'
    ensures var end, end' := EpochEnd(f.roots, m.epoch - 1), EpochEnd(f'.roots, m.epoch - 1);
            end.Some? && end'.Some? && end.value.logSize == end'.value.logSize && end.value.root == end'.value.root
  {
  }

  /** The first entry of an epoch with this key, after an epoch that ended so. */
  function FirstEntry(epoch: nat, key: VrfKey, end: RootLine, createdAt: nat): Genesis {
    Genesis(Some(1), Some(3), true, false, Some(Payload(epoch, end.logSize, end.root, key)), Some(createdAt))
  }

  /** What passes, exactly: the first entry of the epoch, of some time, over the end the files
      give the epoch before, if its hash is the pinned one. In particular that entry does. In
      epoch 1 there is nothing to check. */
  lemma GenesisPassesExactly(epoch: nat, key: VrfKey, pinned: EntryDigest, f: Files, g: Genesis)
    ensures CheckGenesis(Legacy, f, g)
    ensures CheckGenesis(V3(epoch, key, pinned), f, g)
       <==> && epoch >= 1 && EpochEnd(f.roots, epoch - 1).Some?
            && var end := EpochEnd(f.roots, epoch - 1).value;
               exists t: nat :: g == FirstEntry(epoch, key, end, t)
                                && pinned == GenesisHash(Payload(epoch, end.logSize, end.root, key), t)
  {
    hide EpochEnd;
    if CheckGenesis(V3(epoch, key, pinned), f, g) {
      assert g == FirstEntry(epoch, key, EpochEnd(f.roots, epoch - 1).value, g.createdAt.value);
    }
  }

  // ---- memory --------------------------------------------------------------

  datatype Cache = Cache(repo: nat, fetchedAt: nat, files: Files, genesisChecked: Option<nat>)

  /** The highest epoch anchored, when each unanchored epoch was first seen, the cache. */
  datatype Remembered = Remembered(highest: nat, sightings: map<nat, nat>, cache: Option<Cache>)

  function EpochOf(mode: Mode): nat {
    if mode.Legacy? then 1 else mode.epoch
  }

  function Update(m: Remembered, served: nat, verdict: Verdict, now: nat): Remembered {
    match verdict
    case Anchored(mode) =>
      m.(highest := Max(m.highest, EpochOf(mode)),
         sightings := map e | e in m.sightings && e > EpochOf(mode) :: m.sightings[e])
    case Unanchored => if served in m.sightings then m else m.(sightings := m.sightings[served := now])
    case Violation => m
  }

  /** `u64::saturating_sub`. */
  function Since(now: nat, t: nat): nat {
    if now >= t then now - t else 0
  }

  function Age(m: Remembered, served: Served, now: nat): Option<nat> {
    if served.epoch in m.sightings then Some(Since(now, m.sightings[served.epoch])) else None
  }

  function CachedVerdict(m: Remembered, served: Served, repo: nat, now: nat): Option<Verdict> {
    if m.cache.None? || m.cache.value.repo != repo || Since(now, m.cache.value.fetchedAt) >= CACHE_MAX_AGE then None
    else
      var verdict := JudgeEpoch(served, Some(m.cache.value.files), m.highest, Age(m, served, now));
      match verdict
      case Anchored(Legacy) => Some(verdict)
      case Anchored(V3(epoch, _, _)) => if m.cache.value.genesisChecked == Some(epoch) then Some(verdict) else None
      case _ => None
  }

  // ---- one command ---------------------------------------------------------

  datatype GenesisAnswer = Unreachable | NoEntry | Entry(genesis: Genesis)

  /** A command and what it meets: the served epoch, the clock, what each read of the files
      yields, and what the server answers for the first entry. */
  datatype Command = Command(served: Served, repo: Option<nat>, now: nat, useCache: bool,
                             fetches: seq<Option<Files>>, genesis: GenesisAnswer)

  datatype Answer = Failed | Judged(verdict: Verdict, fromCache: bool)

  function ReadAt(c: Command, i: nat): Option<Files> {
    if c.repo.None? || i >= |c.fetches| then None else c.fetches[i]
  }

  function Judge(m: Remembered, c: Command, files: Option<Files>): Verdict {
    JudgeEpoch(c.served, files, m.highest, Age(m, c.served, c.now))
  }

  const RETRIES: nat := 3

  /** Which read the command settles on: the first that does not leave it waiting. */
  function Settled(m: Remembered, c: Command, i: nat): (k: nat)
    ensures i <= RETRIES ==> i <= k <= RETRIES
    decreases RETRIES - i
  {
    if i >= RETRIES || c.repo.None? || Judge(m, c, ReadAt(c, i)) != Unanchored then i else Settled(m, c, i + 1)
  }

  function Refreshed(m: Remembered, c: Command, files: Option<Files>, checked: Option<nat>): Remembered {
    if c.repo.None? || files.None? then m
    else m.(cache := Some(Cache(c.repo.value, c.now, Files(Prune(files.value.roots), files.value.keys), checked)))
  }

  /** A command's answer and what it would save. */
  function Anchor(m: Remembered, c: Command): (Answer, Remembered) {
    var cached := if c.useCache && c.repo.Some? then CachedVerdict(m, c.served, c.repo.value, c.now) else None;
    if cached.Some? then (Judged(cached.value, true), Update(m, c.served.epoch, cached.value, c.now))
    else
      var files := ReadAt(c, Settled(m, c, 0));
      var verdict := Judge(m, c, files);
      if verdict.Anchored? && verdict.mode.V3? && files.Some? then
        if !c.genesis.Entry? then (Failed, m)
        else if CheckGenesis(verdict.mode, files.value, c.genesis.genesis) then
          (Judged(verdict, false),
           Update(Refreshed(m, c, files, Some(verdict.mode.epoch)), c.served.epoch, verdict, c.now))
        else
          (Judged(Violation, false), Update(Refreshed(m, c, files, None), c.served.epoch, Violation, c.now))
      else
        (Judged(verdict, false), Update(Refreshed(m, c, files, None), c.served.epoch, verdict, c.now))
  }

  // ---- what a command answers by -------------------------------------------

  /** The verdict on these files, against what is remembered. */
  function On(m: Remembered, c: Command, files: Option<Files>): Verdict {
    JudgeEpoch(c.served, files, m.highest,
               if c.served.epoch !in m.sightings then None
               else if c.now < m.sightings[c.served.epoch] then Some(0)
               else Some(c.now - m.sightings[c.served.epoch]))
  }

  /** The `k`th read of the files: the first, or the `k`th after it. */
  function Fetched(c: Command, k: nat): Option<Files> {
    if k < |c.fetches| then c.fetches[k] else None
  }

  /** The cache settles it: of this repository, less than a day old, and anchored by it, as
      epoch 1 or under a key whose genesis was checked when the cache was written. */
  predicate CacheSettles(m: Remembered, c: Command) {
    && c.useCache && c.repo.Some? && m.cache.Some? && m.cache.value.repo == c.repo.value
    && c.now < m.cache.value.fetchedAt + CACHE_MAX_AGE
    && var v := On(m, c, Some(m.cache.value.files));
       v == Anchored(Legacy) || (v.Anchored? && m.cache.value.genesisChecked == Some(EpochOf(v.mode)))
  }

  /** The read the answer rests on: the first that does not leave the command waiting, or the
      fourth. */
  predicate RestsOn(m: Remembered, c: Command, k: nat) {
    && k <= RETRIES
    && (forall j :: 0 <= j < k ==> On(m, c, Fetched(c, j)) == Unanchored)
    && (k < RETRIES ==> On(m, c, Fetched(c, k)) != Unanchored)
  }

  /** The answer from a fresh read: the verdict on it, once a key it names has passed the
      genesis check. */
  predicate AnswersBy(m: Remembered, c: Command, files: Option<Files>, r: Answer) {
    var v := On(m, c, files);
    if !(v.Anchored? && v.mode.V3? && files.Some?) then r == Judged(v, false)
    else if !c.genesis.Entry? then r == Failed
    else r == Judged(if CheckGenesis(v.mode, files.value, c.genesis.genesis) then v else Violation, false)
  }

  /** What a command answers: by the cache exactly when that settles it, and otherwise, with a
      repository, by the read it rests on; without one, by no files at all. */
  ghost predicate Answers(m: Remembered, c: Command, r: Answer) {
    if CacheSettles(m, c) then r == Judged(On(m, c, Some(m.cache.value.files)), true)
    else if c.repo.None? then AnswersBy(m, c, None, r)
    else exists k: nat :: RestsOn(m, c, k) && AnswersBy(m, c, Fetched(c, k), r)
  }

  lemma {:induction false} SettledRests(m: Remembered, c: Command, i: nat)
    requires c.repo.Some? && i <= RETRIES && forall j :: 0 <= j < i ==> On(m, c, Fetched(c, j)) == Unanchored
    ensures RestsOn(m, c, Settled(m, c, i))
    decreases RETRIES - i
  {
    hide JudgeEpoch;
    if i < RETRIES && On(m, c, Fetched(c, i)) == Unanchored {
      SettledRests(m, c, i + 1);
    }
  }

  lemma AnchorAnswers(m: Remembered, c: Command)
    ensures Answers(m, c, Anchor(m, c).0)
  {
    hide JudgeEpoch, Prune, CheckGenesis, Settled, RestsOn;
    if c.repo.Some? {
      SettledRests(m, c, 0);
    }
  }

  /** So a command with a repository is left waiting only if all four reads leave it so, and
      otherwise answers by the first that does not. */
  lemma WaitsOnlyAfterFour(m: Remembered, c: Command, k: nat)
    requires c.repo.Some? && !CacheSettles(m, c) && k <= RETRIES && On(m, c, Fetched(c, k)) != Unanchored
    ensures Anchor(m, c).0 != Judged(Unanchored, false)
    ensures (forall j :: 0 <= j < k ==> On(m, c, Fetched(c, j)) == Unanchored) ==>
              AnswersBy(m, c, Fetched(c, k), Anchor(m, c).0)
  {
    hide JudgeEpoch, Prune, CheckGenesis, Anchor;
    AnchorAnswers(m, c);
    var i: nat :| RestsOn(m, c, i) && AnswersBy(m, c, Fetched(c, i), Anchor(m, c).0);
    assert i <= k;
  }

  /** The state a command loads, judges by and saves. */
  class Memory {
    var highest: nat
    var sightings: map<nat, nat>
    var cache: Option<Cache>

    constructor ()
      ensures State() == Remembered(0, map[], None)
    {
      highest, sightings, cache := 0, map[], None;
    }

    function State(): Remembered
      reads this
    {
      Remembered(highest, sightings, cache)
    }

    method UpdateState(served: nat, verdict: Verdict, now: nat)
      modifies this
      ensures State() == Update(old(State()), served, verdict, now)
    {
      match verdict
      case Anchored(mode) =>
        var e := if mode.Legacy? then 1 else mode.epoch;
        if e > highest {
          highest := e;
        }
        sightings := map k | k in sightings && k > e :: sightings[k];
      case Unanchored =>
        if served !in sightings {
          sightings := sightings[served := now];
        }
      case Violation =>
    }

    method AnchorServed(c: Command) returns (r: Answer)
      modifies this
      ensures (r, State()) == Anchor(old(State()), c)
      ensures Answers(old(State()), c, r)
    {
      AnchorAnswers(State(), c);
      if c.useCache && c.repo.Some? {
        var cached := CachedVerdict(State(), c.served, c.repo.value, c.now);
        if cached.Some? {
          UpdateState(c.served.epoch, cached.value, c.now);
          return Judged(cached.value, true);
        }
      }
      var files := ReadAt(c, 0);
      var verdict := Judge(State(), c, files);
      var i: nat := 0;
      while i < RETRIES && verdict == Unanchored && c.repo.Some?
        invariant i <= RETRIES && State() == old(State())
        invariant files == ReadAt(c, i) && verdict == Judge(State(), c, files)
        invariant Settled(State(), c, 0) == Settled(State(), c, i)
        decreases RETRIES - i
      {
        i := i + 1;
        files := ReadAt(c, i);
        verdict := Judge(State(), c, files);
      }
      var checked: Option<nat> := None;
      if verdict.Anchored? && verdict.mode.V3? && files.Some? {
        if !c.genesis.Entry? {
          return Failed;
        }
        if CheckGenesis(verdict.mode, files.value, c.genesis.genesis) {
          checked := Some(verdict.mode.epoch);
        } else {
          verdict := Violation;
        }
      }
      if c.repo.Some? && files.Some? {
        cache := Some(Cache(c.repo.value, c.now, Files(Prune(files.value.roots), files.value.keys), checked));
      }
      UpdateState(c.served.epoch, verdict, c.now);
      return Judged(verdict, false);
    }
  }

  // ---- every run of commands -----------------------------------------------

  /** Commands against one server, in the order they save, each with whether it could and how
      many saves it loaded after. A command loads, may wait for the files, and saves over
      whatever has been saved since; there is no lock. */
  ghost predicate IsRun(ms: seq<Remembered>, cs: seq<Command>, saved: seq<bool>, loaded: seq<nat>) {
    && |ms| == |cs| + 1 && |saved| == |loaded| == |cs|
    && ms[0] == Remembered(0, map[], None)
    && (forall i :: 0 <= i < |cs| ==> cs[i].served.epoch >= 1 && loaded[i] <= i)
    && forall i {:trigger cs[i]} :: 0 <= i < |cs| ==>
         ms[i + 1] == if saved[i] then Anchor(ms[loaded[i]], cs[i]).1 else ms[i]
  }

  lemma LastSave(ms: seq<Remembered>, cs: seq<Command>, saved: seq<bool>, loaded: seq<nat>, k: nat)
    requires IsRun(ms, cs, saved, loaded) && k < |cs|
    ensures ms[k + 1] == if saved[k] then Anchor(ms[loaded[k]], cs[k]).1 else ms[k]
  {
    hide Anchor;
    assert cs[k].served.epoch >= 1;
  }

  /** No command that loaded before save `i` saves after it and before save `j`. */
  ghost predicate Undisturbed(saved: seq<bool>, loaded: seq<nat>, i: nat, j: nat) {
    forall k :: i < k < j && k < |saved| && k < |loaded| && saved[k] ==> loaded[k] > i
  }

  /** Commands run one after another never disturb each other. */
  lemma SequentialIsUndisturbed(saved: seq<bool>, loaded: seq<nat>, i: nat, j: nat)
    requires forall k :: 0 <= k < |loaded| ==> loaded[k] == k
    ensures Undisturbed(saved, loaded, i, j)
  {
  }

  /** A command answered with this verdict. */
  ghost predicate Answered(m: Remembered, c: Command, verdict: Verdict) {
    Anchor(m, c).0.Judged? && Anchor(m, c).0.verdict == verdict
  }

  /** An anchored answer is about the served epoch, which is no lower than any anchored
      before, and it is remembered: no sighting up to it is left. */
  lemma AnchoredIsServed(m: Remembered, c: Command, mode: Mode)
    requires c.served.epoch >= 1 && Answered(m, c, Anchored(mode))
    ensures EpochOf(mode) == c.served.epoch >= m.highest
    ensures Anchor(m, c).1.highest == c.served.epoch
    ensures forall e :: e in Anchor(m, c).1.sightings ==> e > c.served.epoch
  {
  }

  lemma HighestKept(m: Remembered, c: Command)
    ensures m.highest <= Anchor(m, c).1.highest
  {
  }

  lemma {:induction false} HighestNeverFalls(ms: seq<Remembered>, cs: seq<Command>, saved: seq<bool>,
                                             loaded: seq<nat>, i: nat, j: nat)
    requires IsRun(ms, cs, saved, loaded) && i < j < |ms| && Undisturbed(saved, loaded, i, j)
    ensures ms[i + 1].highest <= ms[j].highest
    decreases j
  {
    hide Anchor;
    if i + 1 < j {
      LastSave(ms, cs, saved, loaded, j - 1);
      var from := if saved[j - 1] then loaded[j - 1] else j - 1;
      HighestNeverFalls(ms, cs, saved, loaded, i, from);
      HighestKept(ms[from], cs[j - 1]);
    }
  }

  /** The ratchet. Once a command has anchored an epoch and saved it, no command that loads
      later, from the cache or fresh, whatever the server and the files say, anchors a lower
      one, unless a command that was already under way has saved over it in between. */
  lemma AnchoredNeverFallsBack(ms: seq<Remembered>, cs: seq<Command>, saved: seq<bool>, loaded: seq<nat>, i: nat,
                               j: nat, a: Mode, b: Mode)
    requires IsRun(ms, cs, saved, loaded) && j < |cs| && i < loaded[j] && saved[i]
    requires Undisturbed(saved, loaded, i, loaded[j])
    requires Answered(ms[loaded[i]], cs[i], Anchored(a)) && Answered(ms[loaded[j]], cs[j], Anchored(b))
    ensures EpochOf(a) <= EpochOf(b)
  {
    AnchoredIsServed(ms[loaded[i]], cs[i], a);
    AnchoredIsServed(ms[loaded[j]], cs[j], b);
    HighestNeverFalls(ms, cs, saved, loaded, i, loaded[j]);
  }

  /** A save after `i`, before `j`, of a command that loaded before it, with a ratchet lower
      than what `i` left. */
  ghost predicate Undoes(ms: seq<Remembered>, saved: seq<bool>, loaded: seq<nat>, i: nat, k: nat, j: nat) {
    && |saved| < |ms| && |loaded| == |saved| && i < k < j <= |saved|
    && saved[k] && loaded[k] <= i && ms[k + 1].highest < ms[i + 1].highest
  }

  /** Over every run, overlapping or not, the ratchet is somewhere below what a command left
      exactly if a command that loaded before that save has since saved less. */
  lemma RatchetFallsExactly(ms: seq<Remembered>, cs: seq<Command>, saved: seq<bool>, loaded: seq<nat>, i: nat, j: nat)
    requires IsRun(ms, cs, saved, loaded) && i < j < |ms|
    ensures (exists m | i < m <= j :: ms[m].highest < ms[i + 1].highest)
            <==> exists k: nat :: Undoes(ms, saved, loaded, i, k, j)
  {
    hide Anchor;
    if k: nat :| Undoes(ms, saved, loaded, i, k, j) {
      assert ms[k + 1].highest < ms[i + 1].highest;
    }
    if m :| i < m <= j && ms[m].highest < ms[i + 1].highest {
      var k := FirstFall(ms, cs, saved, loaded, i, m);
      assert Undoes(ms, saved, loaded, i, k, j);
    }
  }

  lemma {:induction false} FirstFall(ms: seq<Remembered>, cs: seq<Command>, saved: seq<bool>, loaded: seq<nat>, i: nat,
                                     m: nat) returns (k: nat)
    requires IsRun(ms, cs, saved, loaded) && i < m < |ms| && ms[m].highest < ms[i + 1].highest
    ensures Undoes(ms, saved, loaded, i, k, m)
    decreases m
  {
    hide Anchor;
    LastSave(ms, cs, saved, loaded, m - 1);
    var from := if saved[m - 1] then loaded[m - 1] else m - 1;
    HighestKept(ms[from], cs[m - 1]);
    if from <= i {
      k := m - 1;
    } else {
      k := FirstFall(ms, cs, saved, loaded, i, from);
    }
  }

  /** A command for a server at epoch 1 with no known anchor repository. */
  const AT_ONE: Command := Command(Served(1, None), None, 0, false, [], Unreachable)

  /** And it does: when such a command loads before and saves after one that anchors epoch 2,
      the next of them anchors epoch 1 again; run after it, it would have been refused. */
  lemma OverlapForgets(newer: Command, mode: Mode) returns (ms: seq<Remembered>)
    requires newer.served.epoch == 2 && Answered(Remembered(0, map[], None), newer, Anchored(mode))
    ensures IsRun(ms, [newer, AT_ONE, AT_ONE], [true, true, true], [0, 0, 2])
    ensures ms[1].highest == 2 && ms[2].highest == 1 && Answered(ms[2], AT_ONE, Anchored(Legacy))
    ensures Answered(ms[1], AT_ONE, Violation)
  {
    var start := Remembered(0, map[], None);
    AnchoredIsServed(start, newer, mode);
    var m1, m2 := Anchor(start, newer).1, Anchor(start, AT_ONE).1;
    ms := [start, m1, m2, Anchor(m2, AT_ONE).1];
  }

  /** No sighting is of an epoch below the ratchet. */
  ghost predicate SightingsAbove(m: Remembered) {
    forall e :: e in m.sightings ==> e >= m.highest
  }

  lemma StepKeepsAbove(m: Remembered, c: Command)
    requires SightingsAbove(m)
    ensures SightingsAbove(Anchor(m, c).1)
  {
    hide Prune, CheckGenesis, MaxEpoch, Carries, KeyOf;
  }

  /** Over every run, every recorded sighting is of an epoch not below the highest anchored. */
  lemma {:induction false} SightingsStayAbove(ms: seq<Remembered>, cs: seq<Command>, saved: seq<bool>,
                                              loaded: seq<nat>, k: nat)
    requires IsRun(ms, cs, saved, loaded) && k < |ms|
    ensures SightingsAbove(ms[k])
    decreases k
  {
    hide Anchor;
    if k > 0 {
      LastSave(ms, cs, saved, loaded, k - 1);
      var from := if saved[k - 1] then loaded[k - 1] else k - 1;
      SightingsStayAbove(ms, cs, saved, loaded, from);
      StepKeepsAbove(ms[from], cs[k - 1]);
    }
  }

  // ---- every anchored key was checked --------------------------------------

  /** A command read these files itself and the genesis of this mode passed against them. */
  ghost predicate Checked(m: Remembered, c: Command, f: Files, mode: Mode) {
    && ReadAt(c, Settled(m, c, 0)) == Some(f)
    && Answered(m, c, Anchored(mode)) && mode.V3?
    && c.genesis.Entry? && CheckGenesis(mode, f, c.genesis.genesis)
    && Judge(m, c, Some(f)) == Anchored(mode)
  }

  /** A cache that says an epoch was checked was written by a command that checked it, from
      the files the cache is cut from. */
  ghost predicate CacheEarned(ms: seq<Remembered>, cs: seq<Command>, saved: seq<bool>, loaded: seq<nat>, k: nat)
    requires IsRun(ms, cs, saved, loaded) && k < |ms|
  {
    ms[k].cache.Some? && ms[k].cache.value.genesisChecked.Some? ==>
      exists i, f, mode ::
          0 <= i < k && saved[i] && Checked(ms[loaded[i]], cs[i], f, mode) && Wrote(cs[i], f, mode, ms[k].cache.value)
  }

  predicate Wrote(c: Command, f: Files, mode: Mode, cache: Cache) {
    && mode.V3? && cache.genesisChecked == Some(mode.epoch)
    && c.repo == Some(cache.repo) && cache.fetchedAt == c.now && cache.files == Files(Prune(f.roots), f.keys)
  }

  /** A command leaves the cache alone, or writes one it has checked, or one that claims no
      check. */
  lemma CacheAfter(m: Remembered, c: Command)
    ensures var cache := Anchor(m, c).1.cache;
            || cache == m.cache
            || (cache.Some? && cache.value.genesisChecked.None?)
            || (cache.Some? && exists f, mode :: Checked(m, c, f, mode) && Wrote(c, f, mode, cache.value))
  {
    hide JudgeEpoch, Prune, CheckGenesis, CachedVerdict;
    var cache := Anchor(m, c).1.cache;
    if cache != m.cache && !(cache.Some? && cache.value.genesisChecked.None?) {
      var f := ReadAt(c, Settled(m, c, 0)).value;
      assert Checked(m, c, f, Judge(m, c, Some(f)).mode);
    }
  }

  lemma {:induction false} CachesAreEarned(ms: seq<Remembered>, cs: seq<Command>, saved: seq<bool>,
                                           loaded: seq<nat>, k: nat)
    requires IsRun(ms, cs, saved, loaded) && k < |ms|
    ensures CacheEarned(ms, cs, saved, loaded, k)
    decreases k
  {
    if k > 0 {
      hide Anchor, Checked, Wrote;
      LastSave(ms, cs, saved, loaded, k - 1);
      var from := if saved[k - 1] then loaded[k - 1] else k - 1;
      CachesAreEarned(ms, cs, saved, loaded, from);
      CacheAfter(ms[from], cs[k - 1]);
    }
  }

  lemma JudgedFromKeyLine(served: Served, f: Files, highest: nat, age: Option<nat>, mode: Mode)
    requires JudgeEpoch(served, Some(f), highest, age) == Anchored(mode) && mode.V3?
    ensures mode.epoch == served.epoch && KeyOf(f.keys, mode.epoch).OneLine?
    ensures mode == V3(mode.epoch, KeyOf(f.keys, mode.epoch).line.key, KeyOf(f.keys, mode.epoch).line.genesis)
  {
  }

  /** Every key a command binds to, fresh or from the cache, passed the genesis check: in that
      command, or in an earlier one of the same repository within the cache's lifetime. */
  lemma EveryKeyWasChecked(ms: seq<Remembered>, cs: seq<Command>, saved: seq<bool>, loaded: seq<nat>, j: nat,
                           mode: Mode)
    requires IsRun(ms, cs, saved, loaded) && j < |cs|
    requires Answered(ms[loaded[j]], cs[j], Anchored(mode)) && mode.V3?
    ensures exists i, f :: 0 <= i <= j && Checked(ms[loaded[i]], cs[i], f, mode)
                           && (i < j ==>
                                 && saved[i] && cs[i].repo == cs[j].repo
                                 && Since(cs[j].now, cs[i].now) < CACHE_MAX_AGE)
  {
    hide JudgeEpoch, Prune, CheckGenesis;
    var m, c := ms[loaded[j]], cs[j];
    if Anchor(m, c).0.fromCache {
      CachesAreEarned(ms, cs, saved, loaded, loaded[j]);
      var i, f, mode' :| 0 <= i < loaded[j] && saved[i] && Checked(ms[loaded[i]], cs[i], f, mode')
          && Wrote(cs[i], f, mode', m.cache.value);
      var m' := ms[loaded[i]];
      JudgedFromKeyLine(c.served, m.cache.value.files, m.highest, Age(m, c.served, c.now), mode);
      JudgedFromKeyLine(cs[i].served, f, m'.highest, Age(m', cs[i].served, cs[i].now), mode');
      assert mode == mode';
    } else {
      var f := ReadAt(c, Settled(m, c, 0));
      FreshNeedsFiles(m, c, mode);
      assert Checked(m, c, f.value, mode);
    }
  }

  lemma FreshNeedsFiles(m: Remembered, c: Command, mode: Mode)
    requires Answered(m, c, Anchored(mode)) && mode.V3? && !Anchor(m, c).0.fromCache
    ensures ReadAt(c, Settled(m, c, 0)).Some?
  {
  }

  // ---- the transition bound ------------------------------------------------

  /** No command of `i..j` that saved anchored this epoch or a later one. */
  ghost predicate NotAnchoredBetween(ms: seq<Remembered>, cs: seq<Command>, saved: seq<bool>, loaded: seq<nat>,
                                     epoch: nat, i: nat, j: nat)
    requires IsRun(ms, cs, saved, loaded) && i <= j <= |cs|
  {
    forall k, mode ::
      i <= k < j && saved[k] && Answered(ms[loaded[k]], cs[k], Anchored(mode)) ==> EpochOf(mode) < epoch
  }

  lemma SightingKept(m: Remembered, c: Command, epoch: nat)
    requires epoch in m.sightings
    ensures var m' := Anchor(m, c).1;
            || (epoch in m'.sightings && m'.sightings[epoch] == m.sightings[epoch])
            || (exists mode :: Answered(m, c, Anchored(mode)) && EpochOf(mode) >= epoch)
  {
    hide JudgeEpoch, Prune, CheckGenesis;
    var r := Anchor(m, c).0;
    if r.Judged? && r.verdict.Anchored? {
      assert Answered(m, c, Anchored(r.verdict.mode));
    }
  }

  /** A first sighting keeps its time until its epoch, or a later one, is anchored, unless a
      command already under way saves over it. */
  lemma {:induction false} SightingStays(ms: seq<Remembered>, cs: seq<Command>, saved: seq<bool>, loaded: seq<nat>,
                                         epoch: nat, i: nat, j: nat)
    requires IsRun(ms, cs, saved, loaded) && i < j <= |cs| && epoch in ms[i + 1].sightings
    requires NotAnchoredBetween(ms, cs, saved, loaded, epoch, i + 1, j) && Undisturbed(saved, loaded, i, j)
    ensures epoch in ms[j].sightings && ms[j].sightings[epoch] == ms[i + 1].sightings[epoch]
    decreases j
  {
    hide Anchor, Answered;
    if i + 1 < j {
      LastSave(ms, cs, saved, loaded, j - 1);
      var from := if saved[j - 1] then loaded[j - 1] else j - 1;
      SightingStays(ms, cs, saved, loaded, epoch, i, from);
      SightingKept(ms[from], cs[j - 1], epoch);
    }
  }

  lemma {:induction false} HighestStaysBelow(ms: seq<Remembered>, cs: seq<Command>, saved: seq<bool>,
                                             loaded: seq<nat>, epoch: nat, i: nat, j: nat)
    requires IsRun(ms, cs, saved, loaded) && i < j <= |cs| && ms[i + 1].highest <= epoch
    requires NotAnchoredBetween(ms, cs, saved, loaded, epoch, i + 1, j) && Undisturbed(saved, loaded, i, j)
    ensures ms[j].highest <= epoch
    decreases j
  {
    hide Anchor, Answered;
    if i + 1 < j {
      LastSave(ms, cs, saved, loaded, j - 1);
      var from := if saved[j - 1] then loaded[j - 1] else j - 1;
      HighestStaysBelow(ms, cs, saved, loaded, epoch, i, from);
      OnlyAnchoringRaises(ms[from], cs[j - 1]);
    }
  }

  lemma OnlyAnchoringRaises(m: Remembered, c: Command)
    ensures var m' := Anchor(m, c).1;
            m'.highest == m.highest || exists mode :: Answered(m, c, Anchored(mode)) && m'.highest == EpochOf(mode)
  {
    hide JudgeEpoch, Prune, CheckGenesis;
    var r := Anchor(m, c).0;
    if r.Judged? && r.verdict.Anchored? {
      assert Answered(m, c, Anchored(r.verdict.mode));
    }
  }

  /** A command left waiting on an epoch it had no sighting of records the time. */
  lemma WaitingIsSighted(m: Remembered, c: Command)
    requires Answered(m, c, Unanchored) && c.served.epoch !in m.sightings
    ensures var m' := Anchor(m, c).1;
            && m.highest == m'.highest <= c.served.epoch
            && c.served.epoch in m'.sightings && m'.sightings[c.served.epoch] == c.now
  {
  }

  /** The bound. A command left waiting on an epoch for the first time starts its clock; as
      long as no command since has anchored it and none already under way has saved over it, a
      command that loads later, reads the files and again finds them in disagreement waits
      within fifteen minutes of that time and refuses from then on. */
  lemma DisagreementIsBounded(ms: seq<Remembered>, cs: seq<Command>, saved: seq<bool>, loaded: seq<nat>, i: nat,
                              j: nat, f: Files)
    requires IsRun(ms, cs, saved, loaded) && j < |cs| && i < loaded[j] && saved[i]
    requires cs[i].served.epoch == cs[j].served.epoch && Undisturbed(saved, loaded, i, loaded[j])
    requires cs[i].served.epoch !in ms[loaded[i]].sightings && Answered(ms[loaded[i]], cs[i], Unanchored)
    requires NotAnchoredBetween(ms, cs, saved, loaded, cs[i].served.epoch, i + 1, loaded[j])
    requires var m := ms[loaded[j]];
             && (Anchor(m, cs[j]).0.Judged? ==> !Anchor(m, cs[j]).0.fromCache)
             && ReadAt(cs[j], Settled(m, cs[j], 0)) == Some(f) && Disagrees(cs[j].served, f)
    ensures Answered(ms[loaded[j]], cs[j],
                     if Since(cs[j].now, cs[i].now) >= TRANSITION_BOUND then Violation else Unanchored)
  {
    hide JudgeEpoch, Prune, CheckGenesis, Disagrees, Settled;
    var m, c := ms[loaded[j]], cs[j];
    WaitingIsSighted(ms[loaded[i]], cs[i]);
    SightingStays(ms, cs, saved, loaded, c.served.epoch, i, loaded[j]);
    HighestStaysBelow(ms, cs, saved, loaded, c.served.epoch, i, loaded[j]);
    JudgementMeans(c.served, Some(f), m.highest, Age(m, c.served, c.now));
  }
}
