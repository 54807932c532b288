/** The upload fan-out (`upload_parts`, cli/src/commands.rs): one producer seals parts in
    plan order, N workers compete for them on a bounded channel and send them, the first
    error wins, and a worker that fails keeps draining. */
module UploadPipeline {
  import opened Hashing

  /** What sealing a part yields and what storage answers when it is stored. `capacity` is
      the channel's: 0 is a rendezvous. */
  datatype Job<!Env, !Tag> = Job(plan: seq<int>, workers: nat, capacity: nat, seal: int -> Env, tag: Env -> Tag)

  datatype PartInput<Tag> = PartInput(number: int, etag: Tag)

  datatype Error = CannotOpen | CannotSeal(number: int) | CannotSend(number: int)

  datatype Item<Env> = Ready(number: int, env: Env) | Broken(error: Error)

  /** `next` is the plan entry the producer comes to after the one in hand. */
  datatype Producer<Env> =
    | Opening
    | Deciding(next: nat)
    | Handing(next: nat, item: Item<Env>)
    | Finished

  datatype Worker<Env> =
    | Idle
    | Receiving
    | Holding(item: Item<Env>)
    | Sending(number: int, env: Env)
    | Failing(error: Error)
    | Raising
    | Exited

  datatype State<Env, Tag> = State(
    producer: Producer<Env>,
    channel: seq<Item<Env>>,
    workers: seq<Worker<Env>>,
    error: Option<Error>,
    abort: bool,
    parts: seq<PartInput<Tag>>,
    store: map<int, Env>)

  function Initial<Env, Tag>(job: Job<Env, Tag>, store: map<int, Env>): State<Env, Tag> {
    State(Opening, [], seq(job.workers, i => Idle), None, false, [], store)
  }

  // ---- steps ---------------------------------------------------------------

  /** One atomic step of one thread. `abort` is read relaxed: a thread may miss that it is
      up, but never sees it up before it is. A send that fails may still have stored. */
  datatype Action =
    | OpenSource(ok: bool)
    | SealNext(ok: bool)
    | StopOnAbort
    | EndPlan
    | Push
    | HandOver(w: nat)
    | Lock(w: nat)
    | Take(w: nat)
    | HangUp(w: nat)
    | Drain(w: nat)
    | Begin(w: nat)
    | Refuse(w: nat)
    | Deliver(w: nat)
    | Break(w: nat, stored: bool)
    | Record(w: nat)
    | Raise(w: nat)

  predicate Locked<Env>(workers: seq<Worker<Env>>) {
    exists i :: 0 <= i < |workers| && workers[i] == Receiving
  }

  predicate Enabled<Env(==), Tag>(job: Job<Env, Tag>, s: State<Env, Tag>, a: Action) {
    match a
    case OpenSource(_) => s.producer == Opening
    case SealNext(_) => s.producer.Deciding? && s.producer.next < |job.plan|
    case StopOnAbort => s.producer.Deciding? && s.producer.next < |job.plan| && s.abort
    case EndPlan => s.producer.Deciding? && s.producer.next >= |job.plan|
    case Push => s.producer.Handing? && |s.channel| < job.capacity
    case HandOver(w) => s.producer.Handing? && job.capacity == 0 && w < |s.workers| && s.workers[w] == Receiving
    case Lock(w) => w < |s.workers| && s.workers[w] == Idle && !Locked(s.workers)
    case Take(w) => w < |s.workers| && s.workers[w] == Receiving && s.channel != []
    case HangUp(w) => w < |s.workers| && s.workers[w] == Receiving && s.channel == [] && s.producer == Finished
    case Drain(w) => w < |s.workers| && s.workers[w].Holding? && s.abort
    case Begin(w) => w < |s.workers| && s.workers[w].Holding? && s.workers[w].item.Ready?
    case Refuse(w) => w < |s.workers| && s.workers[w].Holding? && s.workers[w].item.Broken?
    case Deliver(w) => w < |s.workers| && s.workers[w].Sending?
    case Break(w, _) => w < |s.workers| && s.workers[w].Sending?
    case Record(w) => w < |s.workers| && s.workers[w].Failing?
    case Raise(w) => w < |s.workers| && s.workers[w].Raising?
  }

  /** After a hand-off the producer goes on, unless what it handed over was a failure. */
  function After<Env>(p: Producer<Env>): Producer<Env>
    requires p.Handing?
  {
    if p.item.Broken? then Finished else Deciding(p.next)
  }

  function Step<Env(==), Tag>(job: Job<Env, Tag>, s: State<Env, Tag>, a: Action): State<Env, Tag>
    requires Enabled(job, s, a)
  {
    match a
    case OpenSource(ok) => s.(producer := if ok then Deciding(0) else Handing(|job.plan|, Broken(CannotOpen)))
    case SealNext(ok) =>
      var n := job.plan[s.producer.next];
      s.(producer := Handing(s.producer.next + 1, if ok then Ready(n, job.seal(n)) else Broken(CannotSeal(n))))
    case StopOnAbort => s.(producer := Finished)
    case EndPlan => s.(producer := Finished)
    case Push => s.(channel := s.channel + [s.producer.item], producer := After(s.producer))
    case HandOver(w) => s.(workers := s.workers[w := Holding(s.producer.item)], producer := After(s.producer))
    case Lock(w) => s.(workers := s.workers[w := Receiving])
    case Take(w) => s.(workers := s.workers[w := Holding(s.channel[0])], channel := s.channel[1..])
    case HangUp(w) => s.(workers := s.workers[w := Exited])
    case Drain(w) => s.(workers := s.workers[w := Idle])
    case Begin(w) => s.(workers := s.workers[w := Sending(s.workers[w].item.number, s.workers[w].item.env)])
    case Refuse(w) => s.(workers := s.workers[w := Failing(s.workers[w].item.error)])
    case Deliver(w) =>
      var n, env := s.workers[w].number, s.workers[w].env;
      s.(workers := s.workers[w := Idle], parts := s.parts + [PartInput(n, job.tag(env))], store := s.store[n := env])
    case Break(w, stored) =>
      var n, env := s.workers[w].number, s.workers[w].env;
      s.(workers := s.workers[w := Failing(CannotSend(n))], store := if stored then s.store[n := env] else s.store)
    case Record(w) =>
      s.(workers := s.workers[w := Raising], error := if s.error.Some? then s.error else Some(s.workers[w].error))
    case Raise(w) => s.(workers := s.workers[w := Idle], abort := true)
  }

  /** Every thread has ended: what `thread::scope` waits for. */
  predicate Joined<Env(==), Tag>(s: State<Env, Tag>) {
    s.producer == Finished && forall i :: 0 <= i < |s.workers| ==> s.workers[i] == Exited
  }

  ghost predicate IsRun<Env, Tag>(job: Job<Env, Tag>, store: map<int, Env>, states: seq<State<Env, Tag>>,
                                  actions: seq<Action>) {
    && |states| == |actions| + 1
    && states[0] == Initial(job, store)
    && forall i :: 0 <= i < |actions| ==>
         Enabled(job, states[i], actions[i]) && states[i + 1] == Step(job, states[i], actions[i])
  }

  // ---- termination ---------------------------------------------------------

  function ProducerWeight<Env>(p: Producer<Env>, planned: nat): nat {
    match p
    case Opening => 10 * planned + 10
    case Deciding(next) => if next <= planned then 10 * (planned - next) + 1 else 1
    case Handing(next, _) => if next <= planned then 10 * (planned - next) + 9 else 9
    case Finished => 0
  }

  function WorkerWeight<Env>(w: Worker<Env>): nat {
    match w
    case Idle => 3
    case Receiving => 2
    case Holding(_) => 8
    case Sending(_, _) => 7
    case Failing(_) => 6
    case Raising => 5
    case Exited => 0
  }

  function WorkersWeight<Env>(ws: seq<Worker<Env>>): nat {
    if ws == [] then 0 else WorkerWeight(ws[0]) + WorkersWeight(ws[1..])
  }

  lemma {:induction false} WorkersWeightUpdate<Env>(ws: seq<Worker<Env>>, w: nat, x: Worker<Env>)
    requires w < |ws|
    ensures WorkersWeight(ws[w := x]) == WorkersWeight(ws) - WorkerWeight(ws[w]) + WorkerWeight(x)
  {
    if w == 0 {
      assert ws[0 := x][1..] == ws[1..];
    } else {
      WorkersWeightUpdate(ws[1..], w - 1, x);
      assert ws[w := x][1..] == ws[1..][w - 1 := x];
    }
  }

  function Measure<Env, Tag>(job: Job<Env, Tag>, s: State<Env, Tag>): nat {
    ProducerWeight(s.producer, |job.plan|) + 7 * |s.channel| + WorkersWeight(s.workers)
  }

  predicate OfProducer(a: Action) {
    a.OpenSource? || a.SealNext? || a.StopOnAbort? || a.EndPlan? || a.Push?
  }

  /** A step moves the producer alone, or one worker and perhaps the item it takes. */
  lemma OneThreadMoves<Env, Tag>(job: Job<Env, Tag>, s: State<Env, Tag>, a: Action)
    requires Enabled(job, s, a)
    ensures var s' := Step(job, s, a);
            if OfProducer(a) then s'.workers == s.workers && s'.parts == s.parts
            else a.w < |s.workers| && s'.workers == s.workers[a.w := s'.workers[a.w]]
  {
  }

  /** Every step of every interleaving brings the pipeline nearer its end. */
  lemma StepDecreases<Env, Tag>(job: Job<Env, Tag>, s: State<Env, Tag>, a: Action)
    requires Enabled(job, s, a)
    requires s.producer.Handing? ==> s.producer.next <= |job.plan|
    ensures Measure(job, Step(job, s, a)) < Measure(job, s)
  {
    hide WorkersWeight, Locked;
    OneThreadMoves(job, s, a);
    if !OfProducer(a) {
      WorkersWeightUpdate(s.workers, a.w, Step(job, s, a).workers[a.w]);
    }
  }

  // ---- what every step keeps: the threads ----------------------------------

  /** One receiver at a time, one channel's worth of items, an abort only after an error,
      and nobody gone before the producer is done and the channel empty. */
  ghost predicate Orderly<Env, Tag>(job: Job<Env, Tag>, s: State<Env, Tag>) {
    && |s.workers| == job.workers
    && |s.channel| <= job.capacity
    && (s.producer.Deciding? || s.producer.Handing? ==> s.producer.next <= |job.plan|)
    && (forall i, j :: 0 <= i < j < |s.workers| && s.workers[i] == Receiving ==> s.workers[j] != Receiving)
    && (s.abort ==> s.error.Some?)
    && (forall i :: 0 <= i < |s.workers| && s.workers[i] == Raising ==> s.error.Some?)
    && (forall i :: 0 <= i < |s.workers| && s.workers[i] == Exited ==> s.producer == Finished && s.channel == [])
  }

  lemma ProducerKeepsOrder<Env, Tag>(job: Job<Env, Tag>, s: State<Env, Tag>, a: Action)
    requires Orderly(job, s) && Enabled(job, s, a) && OfProducer(a)
    ensures Orderly(job, Step(job, s, a))
  {
    hide Locked;
  }

  lemma WorkerKeepsOrder<Env, Tag>(job: Job<Env, Tag>, s: State<Env, Tag>, a: Action)
    requires Orderly(job, s) && Enabled(job, s, a) && !OfProducer(a)
    ensures Orderly(job, Step(job, s, a))
  {
    var s' := Step(job, s, a);
    OneThreadMoves(job, s, a);
    if s'.workers[a.w] == Receiving {
      assert forall i :: 0 <= i < |s.workers| ==> s.workers[i] != Receiving;
    }
    hide Locked;
    forall i, j | 0 <= i < j < |s'.workers| && s'.workers[i] == Receiving ensures s'.workers[j] != Receiving {
    }
  }

  lemma StepKeepsOrder<Env, Tag>(job: Job<Env, Tag>, s: State<Env, Tag>, a: Action)
    requires Orderly(job, s) && Enabled(job, s, a)
    ensures Orderly(job, Step(job, s, a))
  {
    hide Orderly, Enabled, Step;
    if OfProducer(a) {
      ProducerKeepsOrder(job, s, a);
    } else {
      WorkerKeepsOrder(job, s, a);
    }
  }

  /** No interleaving gets stuck: until every thread has ended, some thread can move. In
      particular a producer parked in `send` always finds a receiver. */
  lemma SomeoneCanMove<Env, Tag>(job: Job<Env, Tag>, s: State<Env, Tag>) returns (a: Action)
    requires Orderly(job, s) && job.workers >= 1 && !Joined(s)
    ensures Enabled(job, s, a)
  {
    var first := s.workers[0];
    if i :| 0 <= i < |s.workers| && s.workers[i].Holding? {
      a := if s.workers[i].item.Ready? then Begin(i) else Refuse(i);
    } else if i :| 0 <= i < |s.workers| && s.workers[i].Sending? {
      a := Deliver(i);
    } else if i :| 0 <= i < |s.workers| && s.workers[i].Failing? {
      a := Record(i);
    } else if i :| 0 <= i < |s.workers| && s.workers[i].Raising? {
      a := Raise(i);
    } else if i :| 0 <= i < |s.workers| && s.workers[i] == Receiving {
      a := if s.channel != [] then Take(i) else ProducerMove(job, s, i);
    } else if i :| 0 <= i < |s.workers| && s.workers[i] == Idle {
      a := Lock(i);
    } else {
      assert false;
    }
  }

  /** What can happen next when worker `i` waits on an empty channel. */
  function ProducerMove<Env(==), Tag>(job: Job<Env, Tag>, s: State<Env, Tag>, i: nat): (a: Action)
    requires i < |s.workers| && s.workers[i] == Receiving && s.channel == []
    ensures Enabled(job, s, a)
  {
    match s.producer
    case Opening => OpenSource(true)
    case Deciding(next) => if next < |job.plan| then SealNext(true) else EndPlan
    case Handing(_, _) => if job.capacity == 0 then HandOver(i) else Push
    case Finished => HangUp(i)
  }

  lemma {:induction false} RunsAreOrderly<Env, Tag>(job: Job<Env, Tag>, store: map<int, Env>,
                                                    states: seq<State<Env, Tag>>, actions: seq<Action>, k: nat)
    requires IsRun(job, store, states, actions) && k < |states|
    ensures Orderly(job, states[k])
    ensures k + Measure(job, states[k]) <= Measure(job, states[0])
    decreases k
  {
    if k > 0 {
      RunsAreOrderly(job, store, states, actions, k - 1);
      StepKeepsOrder(job, states[k - 1], actions[k - 1]);
      StepDecreases(job, states[k - 1], actions[k - 1]);
    }
  }

  /** Every interleaving terminates, and ends with every thread joined: a run is no longer
      than the initial measure, and one that cannot be extended has joined. */
  lemma EveryRunEnds<Env, Tag>(job: Job<Env, Tag>, store: map<int, Env>, states: seq<State<Env, Tag>>,
                               actions: seq<Action>)
    requires IsRun(job, store, states, actions) && job.workers >= 1
    ensures |actions| <= 10 * |job.plan| + 10 + 3 * job.workers
    ensures Joined(states[|actions|]) || exists a :: Enabled(job, states[|actions|], a)
  {
    RunsAreOrderly(job, store, states, actions, |actions|);
    IdleWeight<Env>(job.workers);
    if !Joined(states[|actions|]) {
      var a := SomeoneCanMove(job, states[|actions|]);
    }
  }

  lemma {:induction false} IdleWeight<Env>(n: nat)
    ensures WorkersWeight(seq<Worker<Env>>(n, i => Idle)) == 3 * n
  {
    if n > 0 {
      IdleWeight<Env>(n - 1);
      assert seq<Worker<Env>>(n, i => Idle)[1..] == seq<Worker<Env>>(n - 1, i => Idle);
    }
  }

  // ---- what every step keeps: the parts ------------------------------------

  // How many copies of part number `n` each place holds.

  function ItemCount<Env>(item: Item<Env>, n: int): nat {
    if item.Ready? && item.number == n then 1 else 0
  }

  function ChannelCount<Env>(items: seq<Item<Env>>, n: int): nat {
    if items == [] then 0 else ItemCount(items[0], n) + ChannelCount(items[1..], n)
  }

  function WorkerCount<Env>(w: Worker<Env>, n: int): nat {
    match w
    case Holding(item) => ItemCount(item, n)
    case Sending(number, _) => if number == n then 1 else 0
    case _ => 0
  }

  function WorkersCount<Env>(ws: seq<Worker<Env>>, n: int): nat {
    if ws == [] then 0 else WorkerCount(ws[0], n) + WorkersCount(ws[1..], n)
  }

  function PlanCount(plan: seq<int>, n: int): nat {
    if plan == [] then 0 else (if plan[0] == n then 1 else 0) + PlanCount(plan[1..], n)
  }

  function ProducerCount<Env>(p: Producer<Env>, plan: seq<int>, n: int): nat {
    match p
    case Opening => PlanCount(plan, n)
    case Deciding(next) => if next <= |plan| then PlanCount(plan[next..], n) else 0
    case Handing(next, item) => ItemCount(item, n) + if next <= |plan| then PlanCount(plan[next..], n) else 0
    case Finished => 0
  }

  function PartCount<Tag>(parts: seq<PartInput<Tag>>, n: int): nat {
    if parts == [] then 0
    else PartCount(parts[..|parts| - 1], n) + if parts[|parts| - 1].number == n then 1 else 0
  }

  /** The copies of `n` the pipeline still has or has delivered. */
  function Accounted<Env, Tag>(job: Job<Env, Tag>, s: State<Env, Tag>, n: int): nat {
    PartCount(s.parts, n) + WorkersCount(s.workers, n) + ChannelCount(s.channel, n)
        + ProducerCount(s.producer, job.plan, n)
  }

  lemma {:induction false} ChannelCountAppend<Env>(items: seq<Item<Env>>, x: Item<Env>, n: int)
    ensures ChannelCount(items + [x], n) == ChannelCount(items, n) + ItemCount(x, n)
  {
    if items == [] {
      assert items + [x] == [x];
    } else {
      ChannelCountAppend(items[1..], x, n);
      assert (items + [x])[1..] == items[1..] + [x];
    }
  }

  lemma {:induction false} WorkersCountUpdate<Env>(ws: seq<Worker<Env>>, w: nat, x: Worker<Env>, n: int)
    requires w < |ws|
    ensures WorkersCount(ws[w := x], n) == WorkersCount(ws, n) - WorkerCount(ws[w], n) + WorkerCount(x, n)
  {
    if w == 0 {
      assert ws[0 := x][1..] == ws[1..];
    } else {
      WorkersCountUpdate(ws[1..], w - 1, x, n);
      assert ws[w := x][1..] == ws[1..][w - 1 := x];
    }
  }

  predicate IsBroken<Env>(w: Worker<Env>) {
    (w.Holding? && w.item.Broken?) || w.Failing?
  }

  /** A failure has been recorded or is on its way to being recorded. */
  ghost predicate Troubled<Env, Tag>(s: State<Env, Tag>) {
    || s.error.Some?
    || (s.producer.Handing? && s.producer.item.Broken?)
    || (exists i :: 0 <= i < |s.channel| && s.channel[i].Broken?)
    || (exists i :: 0 <= i < |s.workers| && IsBroken(s.workers[i]))
  }

  predicate IsFailure(a: Action) {
    a == OpenSource(false) || a == SealNext(false) || a.Break?
  }

  lemma TroubleStays<Env, Tag>(job: Job<Env, Tag>, s: State<Env, Tag>, a: Action)
    requires Orderly(job, s) && Enabled(job, s, a) && (Troubled(s) || IsFailure(a))
    ensures Troubled(Step(job, s, a))
  {
    var s' := Step(job, s, a);
    if i :| 0 <= i < |s.channel| && s.channel[i].Broken? {
      if a.Take? {
        assert if i == 0 then IsBroken(s'.workers[a.w]) else s'.channel[i - 1].Broken?;
      } else {
        assert s'.channel[i].Broken?;
      }
    } else if i :| 0 <= i < |s.workers| && IsBroken(s.workers[i]) {
      assert IsBroken(s'.workers[i]) || s'.error.Some?;
    } else if s.producer.Handing? && s.producer.item.Broken? {
      assert a.Push? ==> s'.channel[|s.channel|].Broken?;
      assert a.HandOver? ==> IsBroken(s'.workers[a.w]);
    } else if a.Break? {
      assert IsBroken(s'.workers[a.w]);
    }
  }

  lemma TroubleHasACause<Env, Tag>(job: Job<Env, Tag>, s: State<Env, Tag>, a: Action)
    requires Enabled(job, s, a) && !Troubled(s) && !IsFailure(a)
    ensures !Troubled(Step(job, s, a))
  {
    var s' := Step(job, s, a);
    forall i | 0 <= i < |s'.channel| ensures !s'.channel[i].Broken? {
      assert !s'.channel[i].Broken? by {
        assert a.Take? ==> s'.channel[i] == s.channel[i + 1];
      }
    }
    forall i | 0 <= i < |s'.workers| ensures !IsBroken(s'.workers[i]) {
      assert a.Take? ==> !s.channel[0].Broken?;
      assert i < |s.workers| && !IsBroken(s.workers[i]);
    }
  }

  /** No part is ever duplicated or invented, and none leaves the account before something
      has failed. */
  lemma StepAccounts<Env, Tag>(job: Job<Env, Tag>, s: State<Env, Tag>, a: Action, n: int)
    requires Orderly(job, s) && Enabled(job, s, a)
    ensures Accounted(job, Step(job, s, a), n) <= Accounted(job, s, n)
    ensures Troubled(s) || IsFailure(a) || Accounted(job, Step(job, s, a), n) == Accounted(job, s, n)
  {
    OneThreadMoves(job, s, a);
    if OfProducer(a) {
      ProducerAccounts(job, s, a, n);
    } else {
      hide WorkersCount, Locked, PlanCount;
      WorkersCountUpdate(s.workers, a.w, Step(job, s, a).workers[a.w], n);
      assert a.Deliver? ==> Step(job, s, a).parts[..|s.parts|] == s.parts;
    }
  }

  lemma ProducerAccounts<Env, Tag>(job: Job<Env, Tag>, s: State<Env, Tag>, a: Action, n: int)
    requires Orderly(job, s) && Enabled(job, s, a) && OfProducer(a)
    ensures Accounted(job, Step(job, s, a), n) <= Accounted(job, s, n)
    ensures Troubled(s) || IsFailure(a) || Accounted(job, Step(job, s, a), n) == Accounted(job, s, n)
  {
    hide WorkersCount, Locked, PartCount;
    var plan := job.plan;
    assert plan[0..] == plan && plan[|plan|..] == [];
    if a.SealNext? {
      assert plan[s.producer.next..][1..] == plan[s.producer.next + 1..];
    } else if a.Push? {
      ChannelCountAppend(s.channel, s.producer.item, n);
    }
  }

  // ---- what every step keeps: the envelopes --------------------------------

  ghost predicate ItemFaithful<Env, Tag>(job: Job<Env, Tag>, item: Item<Env>) {
    item.Ready? ==> item.number in job.plan && item.env == job.seal(item.number)
  }

  ghost predicate WorkerFaithful<Env, Tag>(job: Job<Env, Tag>, w: Worker<Env>) {
    && (w.Holding? ==> ItemFaithful(job, w.item))
    && (w.Sending? ==> w.number in job.plan && w.env == job.seal(w.number))
  }

  /** Every envelope in hand is the one sealed for its part, every delivered part carries
      the tag of that envelope, and storage gains planned parts only. */
  ghost predicate Faithful<Env, Tag>(job: Job<Env, Tag>, before: map<int, Env>, s: State<Env, Tag>) {
    && (s.producer.Handing? ==> ItemFaithful(job, s.producer.item))
    && (forall i :: 0 <= i < |s.channel| ==> ItemFaithful(job, s.channel[i]))
    && (forall i :: 0 <= i < |s.workers| ==> WorkerFaithful(job, s.workers[i]))
    && (forall i :: 0 <= i < |s.parts| ==> s.parts[i] == Made(job, s.parts[i].number) && s.parts[i].number in s.store)
    && before.Keys <= s.store.Keys
    && (forall n :: n in s.store ==>
          if n in job.plan then s.store[n] == job.seal(n) || (n in before && s.store[n] == before[n])
          else n in before && s.store[n] == before[n])
    && (forall i :: 0 <= i < |s.parts| ==> s.store[s.parts[i].number] == job.seal(s.parts[i].number))
  }

  function Made<Env, Tag>(job: Job<Env, Tag>, n: int): PartInput<Tag> {
    PartInput(n, job.tag(job.seal(n)))
  }

  lemma StepKeepsFaith<Env, Tag>(job: Job<Env, Tag>, before: map<int, Env>, s: State<Env, Tag>, a: Action)
    requires Faithful(job, before, s) && Enabled(job, s, a)
    ensures Faithful(job, before, Step(job, s, a))
  {
    hide Faithful, Enabled, Step;
    if OfProducer(a) {
      ProducerKeepsFaith(job, before, s, a);
    } else if a.Deliver? || a.Break? {
      SendKeepsFaith(job, before, s, a);
    } else {
      WorkerKeepsFaith(job, before, s, a);
    }
  }

  lemma ProducerKeepsFaith<Env, Tag>(job: Job<Env, Tag>, before: map<int, Env>, s: State<Env, Tag>, a: Action)
    requires Faithful(job, before, s) && Enabled(job, s, a) && OfProducer(a)
    ensures Faithful(job, before, Step(job, s, a))
  {
    hide Locked, WorkerFaithful, Made;
  }

  lemma WorkerKeepsFaith<Env, Tag>(job: Job<Env, Tag>, before: map<int, Env>, s: State<Env, Tag>, a: Action)
    requires Faithful(job, before, s) && Enabled(job, s, a) && !OfProducer(a) && !a.Deliver? && !a.Break?
    ensures Faithful(job, before, Step(job, s, a))
  {
    hide Locked, Made;
    var s' := Step(job, s, a);
    OneThreadMoves(job, s, a);
    assert WorkerFaithful(job, s.workers[a.w]);
    assert WorkerFaithful(job, s'.workers[a.w]);
    hide WorkerFaithful, ItemFaithful;
  }

  lemma SendKeepsFaith<Env, Tag>(job: Job<Env, Tag>, before: map<int, Env>, s: State<Env, Tag>, a: Action)
    requires Faithful(job, before, s) && Enabled(job, s, a) && (a.Deliver? || a.Break?)
    ensures Faithful(job, before, Step(job, s, a))
  {
    hide Locked, ItemFaithful;
    assert WorkerFaithful(job, s.workers[a.w]);
  }

  ghost predicate Failed(actions: seq<Action>, k: nat)
    requires k <= |actions|
  {
    exists i :: 0 <= i < k && IsFailure(actions[i])
  }

  /** All of it, at every point of every run. */
  lemma {:induction false} RunsAccount<Env, Tag>(job: Job<Env, Tag>, store: map<int, Env>,
                                                 states: seq<State<Env, Tag>>, actions: seq<Action>, k: nat)
    requires IsRun(job, store, states, actions) && k < |states|
    ensures Faithful(job, store, states[k])
    ensures Troubled(states[k]) <==> Failed(actions, k)
    ensures forall n :: Accounted(job, states[k], n) <= PlanCount(job.plan, n)
    ensures Troubled(states[k]) || forall n :: Accounted(job, states[k], n) == PlanCount(job.plan, n)
    decreases k
  {
    hide Accounted, Troubled, Faithful, Enabled, Step, PlanCount;
    if k == 0 {
      StartsClean(job, store);
    } else {
      var s, a := states[k - 1], actions[k - 1];
      RunsAccount(job, store, states, actions, k - 1);
      RunsAreOrderly(job, store, states, actions, k - 1);
      StepKeepsFaith(job, store, s, a);
      if Troubled(s) || IsFailure(a) {
        TroubleStays(job, s, a);
      } else {
        TroubleHasACause(job, s, a);
      }
      forall n
        ensures Accounted(job, states[k], n) <= Accounted(job, s, n)
        ensures Troubled(s) || IsFailure(a) || Accounted(job, states[k], n) == Accounted(job, s, n)
      {
        StepAccounts(job, s, a, n);
      }
    }
  }

  lemma StartsClean<Env, Tag>(job: Job<Env, Tag>, store: map<int, Env>)
    ensures var s := Initial(job, store);
            && Faithful(job, store, s) && !Troubled(s)
            && forall n :: Accounted(job, s, n) == PlanCount(job.plan, n)
  {
    forall n ensures Accounted(job, Initial(job, store), n) == PlanCount(job.plan, n) {
      IdleCount<Env>(job.workers, n);
    }
  }

  lemma {:induction false} IdleCount<Env>(workers: nat, n: int)
    ensures WorkersCount(seq<Worker<Env>>(workers, i => Idle), n) == 0
  {
    if workers > 0 {
      IdleCount<Env>(workers - 1, n);
      assert seq<Worker<Env>>(workers, i => Idle)[1..] == seq<Worker<Env>>(workers - 1, i => Idle);
    }
  }

  /** The producer has failed, or is done: nothing more will be sealed. */
  predicate SealsNoMore<Env, Tag>(s: State<Env, Tag>) {
    s.producer.Finished? || (s.producer.Handing? && s.producer.item.Broken?)
  }

  lemma StepSealsNoMore<Env, Tag>(job: Job<Env, Tag>, s: State<Env, Tag>, a: Action)
    requires Enabled(job, s, a)
    ensures SealsNoMore(s) ==> SealsNoMore(Step(job, s, a)) && !a.SealNext?
    ensures a == SealNext(false) || a == OpenSource(false) ==> SealsNoMore(Step(job, s, a))
  {
    hide Locked;
  }

  /** In every run, nothing is sealed after the first failure to open or to seal. */
  lemma {:induction false} FailureStopsSealing<Env, Tag>(job: Job<Env, Tag>, store: map<int, Env>,
                                                         states: seq<State<Env, Tag>>, actions: seq<Action>,
                                                         i: nat, j: nat)
    requires IsRun(job, store, states, actions) && i < j < |states|
    requires actions[i] == SealNext(false) || actions[i] == OpenSource(false)
    ensures SealsNoMore(states[j]) && (j < |actions| ==> !actions[j].SealNext?)
    decreases j
  {
    hide SealsNoMore, Enabled, Step;
    if j < |actions| {
      StepSealsNoMore(job, states[j], actions[j]);
    }
    StepSealsNoMore(job, states[j - 1], actions[j - 1]);
    if i < j - 1 {
      FailureStopsSealing(job, store, states, actions, i, j - 1);
    }
  }

  /** The first error recorded is the one returned: later ones never replace it. */
  lemma {:induction false} FirstErrorWins<Env, Tag>(job: Job<Env, Tag>, store: map<int, Env>,
                                                    states: seq<State<Env, Tag>>,
                                                    actions: seq<Action>, i: nat, j: nat)
    requires IsRun(job, store, states, actions) && i <= j < |states| && states[i].error.Some?
    ensures states[j].error == states[i].error
    decreases j
  {
    if i < j {
      FirstErrorWins(job, store, states, actions, i, j - 1);
      assert states[j] == Step(job, states[j - 1], actions[j - 1]);
    }
  }

  // ---- the result ----------------------------------------------------------

  datatype Result<+T> = Ok(value: T) | Err(error: Error) | Shortfall(delivered: nat)

  function Insert<Tag>(p: PartInput<Tag>, parts: seq<PartInput<Tag>>): seq<PartInput<Tag>> {
    if parts == [] || p.number < parts[0].number then [p] + parts
    else [parts[0]] + Insert(p, parts[1..])
  }

  /** The stable sort by part number. */
  function SortByNumber<Tag>(parts: seq<PartInput<Tag>>): seq<PartInput<Tag>> {
    if parts == [] then []
    else Insert(parts[|parts| - 1], SortByNumber(parts[..|parts| - 1]))
  }

  ghost predicate Ascending<Tag>(parts: seq<PartInput<Tag>>) {
    forall i, j :: 0 <= i < j < |parts| ==> parts[i].number <= parts[j].number
  }

  lemma {:induction false} InsertSorts<Tag>(p: PartInput<Tag>, parts: seq<PartInput<Tag>>)
    requires Ascending(parts)
    ensures Ascending(Insert(p, parts))
    ensures multiset(Insert(p, parts)) == multiset(parts) + multiset{p}
  {
    if parts == [] || p.number < parts[0].number {
      PrependKeepsOrder(p, parts);
    } else {
      InsertSorts(p, parts[1..]);
      var rest := Insert(p, parts[1..]);
      assert parts == [parts[0]] + parts[1..];
      forall x | x in rest ensures parts[0].number <= x.number {
        assert x in multiset(rest);
      }
      PrependKeepsOrder(parts[0], rest);
    }
  }

  lemma PrependKeepsOrder<Tag>(p: PartInput<Tag>, parts: seq<PartInput<Tag>>)
    requires Ascending(parts)
        && (parts != [] ==> p.number < parts[0].number || forall x :: x in parts ==> p.number <= x.number)
    ensures Ascending([p] + parts)
  {
  }

  lemma {:induction false} SortSorts<Tag>(parts: seq<PartInput<Tag>>)
    ensures Ascending(SortByNumber(parts)) && multiset(SortByNumber(parts)) == multiset(parts)
  {
    if parts != [] {
      var n := |parts| - 1;
      SortSorts(parts[..n]);
      InsertSorts(parts[n], SortByNumber(parts[..n]));
      assert parts == parts[..n] + [parts[n]];
    }
  }

  /** Ascending lists of the same parts, one tag a number, are the same list. */
  lemma {:induction false} AscendingIsUnique<Env, Tag>(job: Job<Env, Tag>, a: seq<PartInput<Tag>>,
                                                       b: seq<PartInput<Tag>>)
    requires Ascending(a) && Ascending(b) && multiset(a) == multiset(b)
    requires AllMade(job, a) && AllMade(job, b)
    ensures a == b
  {
    assert |a| == |multiset(a)| && |b| == |multiset(b)|;
    if a != [] {
      HeadIsLeast(a, b);
      HeadIsLeast(b, a);
      assert a[0] == b[0];
      TailMultiset(a);
      TailMultiset(b);
      AscendingIsUnique(job, a[1..], b[1..]);
    }
  }

  ghost predicate AllMade<Env, Tag>(job: Job<Env, Tag>, parts: seq<PartInput<Tag>>) {
    forall i :: 0 <= i < |parts| ==> parts[i] == Made(job, parts[i].number)
  }

  lemma TailMultiset<T>(s: seq<T>)
    requires s != []
    ensures multiset(s[1..]) == multiset(s) - multiset{s[0]}
  {
    assert s == [s[0]] + s[1..];
  }

  lemma HeadIsLeast<Tag>(a: seq<PartInput<Tag>>, b: seq<PartInput<Tag>>)
    requires Ascending(a) && multiset(a) == multiset(b) && a != [] && b != []
    ensures a[0].number <= b[0].number
  {
    assert b[0] in multiset(a);
    var i :| 0 <= i < |a| && a[i] == b[0];
  }

  /** What the serial loop sends, in the order it sends it. */
  function InPlanOrder<Env, Tag>(job: Job<Env, Tag>): (parts: seq<PartInput<Tag>>)
    ensures |parts| == |job.plan|
    ensures forall i :: 0 <= i < |parts| ==> parts[i] == Made(job, job.plan[i])
  {
    seq(|job.plan|, i requires 0 <= i < |job.plan| => Made(job, job.plan[i]))
  }

  /** One part per planned part, ascending: what `complete` is given. */
  function Finalized<Env, Tag>(job: Job<Env, Tag>): seq<PartInput<Tag>> {
    SortByNumber(InPlanOrder(job))
  }

  /** What `upload_parts` returns once every thread has joined. */
  function Outcome<Env, Tag>(job: Job<Env, Tag>, s: State<Env, Tag>): Result<seq<PartInput<Tag>>> {
    if s.error.Some? then Err(s.error.value)
    else if |s.parts| != |job.plan| then Shortfall(|s.parts|)
    else Ok(SortByNumber(s.parts))
  }

  lemma {:induction false} PartCountIsMultiset<Env, Tag>(job: Job<Env, Tag>, parts: seq<PartInput<Tag>>, n: int)
    requires AllMade(job, parts)
    ensures PartCount(parts, n) == multiset(parts)[Made(job, n)]
  {
    if parts != [] {
      var k := |parts| - 1;
      PartCountIsMultiset(job, parts[..k], n);
      assert parts == parts[..k] + [parts[k]];
    }
  }

  lemma {:induction false} PlanCountIsPartCount<Env, Tag>(job: Job<Env, Tag>, plan: seq<int>,
                                                          parts: seq<PartInput<Tag>>, n: int)
    requires |plan| == |parts| && forall i :: 0 <= i < |plan| ==> parts[i] == Made(job, plan[i])
    ensures PlanCount(plan, n) == multiset(parts)[Made(job, n)]
  {
    if plan != [] {
      PlanCountIsPartCount(job, plan[1..], parts[1..], n);
      assert parts == [parts[0]] + parts[1..];
    }
  }

  lemma SameParts<Env, Tag>(job: Job<Env, Tag>, parts: seq<PartInput<Tag>>)
    requires AllMade(job, parts)
    requires forall n :: PartCount(parts, n) == PlanCount(job.plan, n)
    ensures multiset(parts) == multiset(InPlanOrder(job))
  {
    hide PartCount, PlanCount;
    var serial := InPlanOrder(job);
    forall x ensures multiset(parts)[x] == multiset(serial)[x] {
      if x == Made(job, x.number) {
        PartCountIsMultiset(job, parts, x.number);
        PlanCountIsPartCount(job, job.plan, serial, x.number);
      } else {
        assert x !in parts && x !in serial;
      }
    }
  }

  /** Delivered parts that account for the whole plan sort to the serial result. */
  lemma DeliveredIsFinalized<Env, Tag>(job: Job<Env, Tag>, parts: seq<PartInput<Tag>>)
    requires AllMade(job, parts)
    requires forall n :: PartCount(parts, n) == PlanCount(job.plan, n)
    ensures |parts| == |job.plan| && SortByNumber(parts) == Finalized(job)
  {
    var serial := InPlanOrder(job);
    SameParts(job, parts);
    hide PartCount, PlanCount, SortByNumber;
    assert |parts| == |multiset(parts)| && |serial| == |multiset(serial)|;
    SortSorts(parts);
    SortSorts(serial);
    SortKeepsMade(job, parts);
    SortKeepsMade(job, serial);
    AscendingIsUnique(job, SortByNumber(parts), SortByNumber(serial));
  }

  lemma SortKeepsMade<Env, Tag>(job: Job<Env, Tag>, parts: seq<PartInput<Tag>>)
    requires AllMade(job, parts)
    ensures AllMade(job, SortByNumber(parts))
  {
    SortSorts(parts);
    var sorted := SortByNumber(parts);
    forall i | 0 <= i < |sorted| ensures sorted[i] == Made(job, sorted[i].number) {
      assert sorted[i] in multiset(sorted);
      assert sorted[i] in parts;
    }
  }

  // ---- which error is returned ---------------------------------------------

  /** The error a failing step names: the source that does not open, the planned part that
      cannot be sealed, the part whose send breaks. */
  function FailureAt<Env, Tag>(job: Job<Env, Tag>, s: State<Env, Tag>, a: Action): Option<Error> {
    match a
    case OpenSource(false) => Some(CannotOpen)
    case SealNext(false) =>
      if s.producer.Deciding? && s.producer.next < |job.plan| then Some(CannotSeal(job.plan[s.producer.next])) else None
    case Break(w, _) =>
      if w < |s.workers| && s.workers[w].Sending? then Some(CannotSend(s.workers[w].number)) else None
    case _ => None
  }

  /** Some step before `k` failed with this error. */
  ghost predicate Happened<Env, Tag>(job: Job<Env, Tag>, states: seq<State<Env, Tag>>, actions: seq<Action>, k: nat,
                                     e: Error)
    requires k <= |actions| < |states|
  {
    exists t :: 0 <= t < k && FailureAt(job, states[t], actions[t]) == Some(e)
  }

  /** The error of the first `Record` before `k`. */
  function FirstRecorded<Env, Tag>(states: seq<State<Env, Tag>>, actions: seq<Action>, k: nat): Option<Error>
    requires k <= |actions| < |states|
  {
    if k == 0 then None
    else
      var before := FirstRecorded(states, actions, k - 1);
      var s, a := states[k - 1], actions[k - 1];
      if before.Some? then before
      else if a.Record? && a.w < |s.workers| && s.workers[a.w].Failing? then Some(s.workers[a.w].error)
      else None
  }

  predicate ItemCarries<Env>(item: Item<Env>, e: Error) {
    item.Broken? && item.error == e
  }

  predicate WorkerCarries<Env>(w: Worker<Env>, e: Error) {
    (w.Holding? && ItemCarries(w.item, e)) || (w.Failing? && w.error == e)
  }

  /** The error is on its way from where it happened, or recorded. */
  ghost predicate Carries<Env, Tag>(s: State<Env, Tag>, e: Error) {
    || s.error == Some(e)
    || (s.producer.Handing? && ItemCarries(s.producer.item, e))
    || (exists i :: 0 <= i < |s.channel| && ItemCarries(s.channel[i], e))
    || (exists i :: 0 <= i < |s.workers| && WorkerCarries(s.workers[i], e))
  }

  lemma ProducerCarries<Env, Tag>(job: Job<Env, Tag>, s: State<Env, Tag>, a: Action, e: Error)
    requires Enabled(job, s, a) && OfProducer(a) && Carries(Step(job, s, a), e)
    ensures Carries(s, e) || FailureAt(job, s, a) == Some(e)
  {
    hide Locked;
    var s' := Step(job, s, a);
    if i :| 0 <= i < |s'.workers| && WorkerCarries(s'.workers[i], e) {
      assert WorkerCarries(s.workers[i], e);
    } else if i :| 0 <= i < |s'.channel| && ItemCarries(s'.channel[i], e) {
      assert i < |s.channel| ==> ItemCarries(s.channel[i], e);
    }
  }

  lemma CarriedFrom<Env, Tag>(job: Job<Env, Tag>, s: State<Env, Tag>, a: Action, e: Error)
    requires Enabled(job, s, a) && Carries(Step(job, s, a), e)
    ensures Carries(s, e) || FailureAt(job, s, a) == Some(e)
  {
    hide Locked;
    if OfProducer(a) {
      ProducerCarries(job, s, a, e);
    } else {
      var s' := Step(job, s, a);
      OneThreadMoves(job, s, a);
      if i :| 0 <= i < |s'.workers| && WorkerCarries(s'.workers[i], e) {
        assert i != a.w ==> WorkerCarries(s.workers[i], e);
        assert a.Take? && i == a.w ==> ItemCarries(s.channel[0], e);
        assert a.Refuse? && i == a.w ==> WorkerCarries(s.workers[i], e);
      } else if i :| 0 <= i < |s'.channel| && ItemCarries(s'.channel[i], e) {
        assert s'.channel[i] == s.channel[if a.Take? then i + 1 else i];
      } else if s'.error == Some(e) && s.error != Some(e) {
        assert WorkerCarries(s.workers[a.w], e);
      }
    }
  }

  /** Whatever error is about has happened, and the recorded one was recorded first. */
  lemma {:induction false} ErrorsHappened<Env, Tag>(job: Job<Env, Tag>, store: map<int, Env>,
                                                    states: seq<State<Env, Tag>>, actions: seq<Action>, k: nat,
                                                    e: Error)
    requires IsRun(job, store, states, actions) && k < |states| && Carries(states[k], e)
    ensures Happened(job, states, actions, k, e)
    decreases k
  {
    hide Carries, Enabled, Step, FailureAt, Initial;
    if k == 0 {
      StartsEmpty(job, store, e);
      assert false;
    } else {
      CarriedFrom(job, states[k - 1], actions[k - 1], e);
      if Carries(states[k - 1], e) {
        ErrorsHappened(job, store, states, actions, k - 1, e);
      }
    }
  }

  lemma StartsEmpty<Env, Tag>(job: Job<Env, Tag>, store: map<int, Env>, e: Error)
    ensures !Carries(Initial(job, store), e)
  {
  }

  lemma {:induction false} RecordedFirst<Env, Tag>(job: Job<Env, Tag>, store: map<int, Env>,
                                                   states: seq<State<Env, Tag>>, actions: seq<Action>, k: nat)
    requires IsRun(job, store, states, actions) && k < |states|
    ensures states[k].error == FirstRecorded(states, actions, k)
    decreases k
  {
    hide Enabled, Step;
    if k > 0 {
      RecordedFirst(job, store, states, actions, k - 1);
      RecordsOnce(job, states[k - 1], actions[k - 1]);
    }
  }

  lemma RecordsOnce<Env, Tag>(job: Job<Env, Tag>, s: State<Env, Tag>, a: Action)
    requires Enabled(job, s, a)
    ensures Step(job, s, a).error
            == if s.error.None? && a.Record? then Some(s.workers[a.w].error) else s.error
    ensures a.Record? ==> a.w < |s.workers| && s.workers[a.w].Failing?
  {
    hide Locked;
  }

  /** The fan-out refines the serial loop. However the threads interleave and whatever fails:
      the upload returns `Ok` exactly when nothing failed, the shortfall branch is never
      taken, and an `Ok` is the serial loop's own result with every planned part stored; an
      error is the first one recorded, and names a failure that happened. */
  lemma FanOutRefinesSerial<Env, Tag>(job: Job<Env, Tag>, store: map<int, Env>,
                                      states: seq<State<Env, Tag>>, actions: seq<Action>)
    requires IsRun(job, store, states, actions) && job.workers >= 1 && Joined(states[|actions|])
    ensures var s, out := states[|actions|], Outcome(job, states[|actions|]);
            && (out.Ok? <==> !Failed(actions, |actions|))
            && !out.Shortfall?
            && (out.Ok? ==> out.value == Finalized(job))
            && (out.Ok? ==> forall n :: n in job.plan ==> n in s.store && s.store[n] == job.seal(n))
            && (out.Err? ==>
                  && FirstRecorded(states, actions, |actions|) == Some(out.error)
                  && Happened(job, states, actions, |actions|, out.error))
  {
    hide SortByNumber, Finalized, Faithful, Accounted, Troubled, Orderly, PlanCount, Step, Enabled, FirstRecorded,
      Happened;
    var s := states[|actions|];
    RunsAreOrderly(job, store, states, actions, |actions|);
    RunsAccount(job, store, states, actions, |actions|);
    JoinedMeans(job, store, s);
    RecordedFirst(job, store, states, actions, |actions|);
    if s.error.Some? {
      ErrorsHappened(job, store, states, actions, |actions|, s.error.value);
    } else {
      DeliveredIsFinalized(job, s.parts);
      forall n | n in job.plan ensures n in s.store && s.store[n] == job.seal(n) {
        PlannedIsCounted(job.plan, n);
        CountedIsStored(job, store, s, n);
      }
    }
  }

  lemma JoinedMeans<Env, Tag>(job: Job<Env, Tag>, store: map<int, Env>, s: State<Env, Tag>)
    requires Joined(s) && Orderly(job, s) && Faithful(job, store, s) && job.workers >= 1
    ensures Troubled(s) <==> s.error.Some?
    ensures AllMade(job, s.parts)
    ensures forall n :: Accounted(job, s, n) == PartCount(s.parts, n)
  {
    assert s.workers[0] == Exited;
    forall n ensures Accounted(job, s, n) == PartCount(s.parts, n) {
      ExitedCount(s.workers, n);
    }
  }

  lemma {:induction false} ExitedCount<Env>(ws: seq<Worker<Env>>, n: int)
    requires forall i :: 0 <= i < |ws| ==> ws[i] == Exited
    ensures WorkersCount(ws, n) == 0
  {
    if ws != [] {
      ExitedCount(ws[1..], n);
    }
  }

  lemma {:induction false} PlannedIsCounted(plan: seq<int>, n: int)
    requires n in plan
    ensures PlanCount(plan, n) >= 1
  {
    if plan[0] != n {
      PlannedIsCounted(plan[1..], n);
    }
  }

  lemma CountedIsStored<Env, Tag>(job: Job<Env, Tag>, store: map<int, Env>, s: State<Env, Tag>, n: int)
    requires Faithful(job, store, s) && PartCount(s.parts, n) >= 1
    ensures n in s.store && s.store[n] == job.seal(n)
  {
    var i := CountedIsThere(s.parts, n);
  }

  lemma {:induction false} CountedIsThere<Tag>(parts: seq<PartInput<Tag>>, n: int) returns (i: nat)
    requires PartCount(parts, n) >= 1
    ensures i < |parts| && parts[i].number == n
  {
    var k := |parts| - 1;
    if parts[k].number == n {
      i := k;
    } else {
      i := CountedIsThere(parts[..k], n);
    }
  }

  // ---- stopping after a failure --------------------------------------------

  /** Some worker has raised the flag before `k`. */
  ghost predicate Raised(actions: seq<Action>, k: nat)
    requires k <= |actions|
  {
    exists t :: 0 <= t < k && actions[t].Raise?
  }

  /** An error recorded is being raised or has been. */
  ghost predicate WillRaise<Env, Tag>(s: State<Env, Tag>) {
    s.error.Some? ==> s.abort || exists i :: 0 <= i < |s.workers| && s.workers[i].Raising?
  }

  lemma StillRaised<Env, Tag>(job: Job<Env, Tag>, s: State<Env, Tag>, a: Action)
    requires Enabled(job, s, a) && WillRaise(s)
    ensures WillRaise(Step(job, s, a)) && (Step(job, s, a).abort <==> s.abort || a.Raise?)
  {
    hide Locked;
    var s' := Step(job, s, a);
    OneThreadMoves(job, s, a);
    if !s'.abort && s'.error.Some? {
      if a.Record? {
        assert s'.workers[a.w].Raising?;
      } else {
        var i :| 0 <= i < |s.workers| && s.workers[i].Raising?;
        assert s'.workers[i].Raising?;
      }
    }
  }

  /** Over every run the flag that stops the others is up exactly once a worker has raised it;
      and an upload that ends with an error has raised it. */
  lemma {:induction false} FailureRaises<Env, Tag>(job: Job<Env, Tag>, store: map<int, Env>,
                                                   states: seq<State<Env, Tag>>, actions: seq<Action>, k: nat)
    requires IsRun(job, store, states, actions) && k < |states|
    ensures WillRaise(states[k]) && (states[k].abort <==> Raised(actions, k))
    ensures Joined(states[k]) && states[k].error.Some? ==> states[k].abort
    decreases k
  {
    hide Enabled, Step;
    if k > 0 {
      FailureRaises(job, store, states, actions, k - 1);
      StillRaised(job, states[k - 1], actions[k - 1]);
    }
  }

  /** A step that seals no part and begins no send. */
  predicate Draining(a: Action) {
    !a.SealNext? && !a.Begin?
  }

  /** With the flag up, until every thread has ended, some thread can move so. */
  lemma SomeoneCanDrain<Env, Tag>(job: Job<Env, Tag>, s: State<Env, Tag>) returns (a: Action)
    requires Orderly(job, s) && job.workers >= 1 && s.abort && !Joined(s)
    ensures Enabled(job, s, a) && Draining(a) && Step(job, s, a).abort
  {
    var first := s.workers[0];
    if i :| 0 <= i < |s.workers| && s.workers[i].Holding? {
      a := Drain(i);
    } else if i :| 0 <= i < |s.workers| && s.workers[i].Sending? {
      a := Deliver(i);
    } else if i :| 0 <= i < |s.workers| && s.workers[i].Failing? {
      a := Record(i);
    } else if i :| 0 <= i < |s.workers| && s.workers[i].Raising? {
      a := Raise(i);
    } else if i :| 0 <= i < |s.workers| && s.workers[i] == Receiving {
      a := if s.channel != [] then Take(i)
           else if s.producer.Deciding? && s.producer.next < |job.plan| then StopOnAbort
           else ProducerMove(job, s, i);
    } else if i :| 0 <= i < |s.workers| && s.workers[i] == Idle {
      a := Lock(i);
    } else {
      assert false;
    }
  }

  /** Once the flag is up, any run can be carried on to its end with no part sealed and no send
      begun any more. */
  lemma {:induction false} WindsDown<Env, Tag>(job: Job<Env, Tag>, store: map<int, Env>, states: seq<State<Env, Tag>>,
                                               actions: seq<Action>)
      returns (states': seq<State<Env, Tag>>, actions': seq<Action>)
    requires IsRun(job, store, states, actions) && job.workers >= 1 && states[|actions|].abort
    ensures IsRun(job, store, states', actions') && states <= states' && actions <= actions'
    ensures Joined(states'[|actions'|]) && forall i :: |actions| <= i < |actions'| ==> Draining(actions'[i])
    decreases Measure(job, states[|actions|])
  {
    hide Enabled, Step, Measure, Initial, Orderly, Draining, Joined;
    var s := states[|actions|];
    RunsAreOrderly(job, store, states, actions, |actions|);
    if Joined(s) {
      return states, actions;
    }
    var a := SomeoneCanDrain(job, s);
    OrderlyDecreases(job, s, a);
    var more := actions + [a];
    states', actions' := WindsDown(job, store, states + [Step(job, s, a)], more);
    assert actions'[|actions|] == more[|actions|] == a;
  }

  lemma OrderlyDecreases<Env, Tag>(job: Job<Env, Tag>, s: State<Env, Tag>, a: Action)
    requires Enabled(job, s, a) && Orderly(job, s)
    ensures Measure(job, Step(job, s, a)) < Measure(job, s)
  {
    hide Enabled, Step, Measure;
    StepDecreases(job, s, a);
  }

  // ---- the serial loop -----------------------------------------------------

  /** Storage after the first `k` sends of the plan. */
  function SerialStore<Env, Tag>(job: Job<Env, Tag>, store: map<int, Env>, k: nat): map<int, Env>
    requires k <= |job.plan|
  {
    if k == 0 then store else SerialStore(job, store, k - 1)[job.plan[k - 1] := job.seal(job.plan[k - 1])]
  }

  lemma {:induction false} SerialStoreMeans<Env, Tag>(job: Job<Env, Tag>, store: map<int, Env>, k: nat, n: int)
    requires k <= |job.plan|
    ensures n in SerialStore(job, store, k) <==> n in store || n in job.plan[..k]
    ensures n in job.plan[..k] ==> SerialStore(job, store, k)[n] == job.seal(n)
    ensures n in store && n !in job.plan[..k] ==> SerialStore(job, store, k)[n] == store[n]
  {
    if k > 0 {
      SerialStoreMeans(job, store, k - 1, n);
      assert job.plan[..k] == job.plan[..k - 1] + [job.plan[k - 1]];
    }
  }

  /** The retraction position: read, seal, send, repeat, and stop at the first failure. The
      sets say at which plan positions sealing or sending fails, and at which a send that fails
      has stored its part. */
  method UploadSerial<Env, Tag>(job: Job<Env, Tag>, opens: bool, sealFails: set<nat>, sendFails: set<nat>,
                                landed: set<nat>, store: map<int, Env>)
    returns (r: Result<seq<PartInput<Tag>>>, after: map<int, Env>, ghost sent: nat)
    ensures r.Ok? <==> opens && forall i :: 0 <= i < |job.plan| ==> i !in sealFails && i !in sendFails
    ensures !r.Shortfall?
    ensures r.Ok? ==> r.value == Finalized(job) && sent == |job.plan|
    // The parts go out in plan order, and storage gains those sent and no others.
    ensures sent <= |job.plan| && after == SerialStore(job, store, sent)
    ensures !opens ==> r == Err(CannotOpen) && sent == 0
    // The error is that of the first position that fails.
    ensures r.Err? && opens ==> exists i | 0 <= i < |job.plan| ::
              && (i in sealFails || i in sendFails)
              && sent == (if i !in sealFails && i in landed then i + 1 else i)
              && (forall j :: 0 <= j < i ==> j !in sealFails && j !in sendFails)
              && r.error == if i in sealFails then CannotSeal(job.plan[i]) else CannotSend(job.plan[i])
  {
    after, sent := store, 0;
    if !opens {
      return Err(CannotOpen), after, 0;
    }
    var parts: seq<PartInput<Tag>> := [];
    for k := 0 to |job.plan|
      invariant parts == InPlanOrder(job)[..k]
      invariant forall i :: 0 <= i < k ==> i !in sealFails && i !in sendFails
      invariant sent == k && after == SerialStore(job, store, k)
    {
      var n := job.plan[k];
      if k in sealFails {
        return Err(CannotSeal(n)), after, k;
      }
      var env := job.seal(n);
      if k in sendFails {
        if k in landed {
          return Err(CannotSend(n)), after[n := env], k + 1;
        }
        return Err(CannotSend(n)), after, k;
      }
      after := after[n := env];
      parts := parts + [PartInput(n, job.tag(env))];
      sent := k + 1;
    }
    assert InPlanOrder(job)[..|job.plan|] == InPlanOrder(job);
    r := Ok(SortByNumber(parts));
  }

  // ---- memory --------------------------------------------------------------

  function AliveInWorkers<Env>(ws: seq<Worker<Env>>): (c: nat)
    ensures c <= |ws|
  {
    if ws == [] then 0
    else AliveIn(ws[0]) + AliveInWorkers(ws[1..])
  }

  function AliveInChannel<Env>(items: seq<Item<Env>>): (c: nat)
    ensures c <= |items|
  {
    if items == [] then 0 else (if items[0].Ready? then 1 else 0) + AliveInChannel(items[1..])
  }

  /** The sealed envelopes in memory. */
  function Alive<Env, Tag>(s: State<Env, Tag>): nat {
    (if s.producer.Handing? && s.producer.item.Ready? then 1 else 0) + AliveInChannel(s.channel)
        + AliveInWorkers(s.workers)
  }

  /** `sync_channel(prepare_ahead.saturating_sub(1))`. */
  function ChannelCapacity(prepareAhead: nat): nat {
    if prepareAhead == 0 then 0 else prepareAhead - 1
  }

  /** Memory does not grow with the file: at every point of every run. */
  lemma EnvelopesAreBounded<Env, Tag>(job: Job<Env, Tag>, prepareAhead: nat, store: map<int, Env>,
                                      states: seq<State<Env, Tag>>, actions: seq<Action>, k: nat)
    requires IsRun(job, store, states, actions) && k < |states| && job.capacity == ChannelCapacity(prepareAhead)
    ensures Alive(states[k]) <= job.workers + if prepareAhead == 0 then 1 else prepareAhead
  {
    RunsAreOrderly(job, store, states, actions, k);
  }

  /** The parts sealed so far, at most. */
  function SealedSoFar<Env, Tag>(job: Job<Env, Tag>, s: State<Env, Tag>): nat {
    match s.producer
    case Opening => 0
    case Deciding(next) => next
    case Handing(next, _) => next
    case Finished => |job.plan|
  }

  function AliveIn<Env>(w: Worker<Env>): nat {
    if w.Sending? || (w.Holding? && w.item.Ready?) then 1 else 0
  }

  lemma {:induction false} AliveUpdate<Env>(ws: seq<Worker<Env>>, w: nat, x: Worker<Env>)
    requires w < |ws|
    ensures AliveInWorkers(ws[w := x]) == AliveInWorkers(ws) - AliveIn(ws[w]) + AliveIn(x)
  {
    if w == 0 {
      assert ws[0 := x][1..] == ws[1..];
    } else {
      AliveUpdate(ws[1..], w - 1, x);
      assert ws[w := x][1..] == ws[1..][w - 1 := x];
    }
  }

  lemma {:induction false} AliveAppend<Env>(items: seq<Item<Env>>, x: Item<Env>)
    ensures AliveInChannel(items + [x]) == AliveInChannel(items) + if x.Ready? then 1 else 0
  {
    if items == [] {
      assert items + [x] == [x] && [x][1..] == [];
    } else {
      assert (items + [x])[1..] == items[1..] + [x];
      AliveAppend(items[1..], x);
    }
  }

  lemma StepKeepsSealed<Env, Tag>(job: Job<Env, Tag>, s: State<Env, Tag>, a: Action)
    requires Enabled(job, s, a) && Orderly(job, s) && Alive(s) <= SealedSoFar(job, s)
    ensures Alive(Step(job, s, a)) <= SealedSoFar(job, Step(job, s, a))
  {
    hide AliveInWorkers, Locked;
    OneThreadMoves(job, s, a);
    if !OfProducer(a) {
      AliveUpdate(s.workers, a.w, Step(job, s, a).workers[a.w]);
    } else if a.Push? {
      AliveAppend(s.channel, s.producer.item);
    }
  }

  /** At every point of every run, no more envelopes are alive than parts were sealed. */
  lemma {:induction false} AliveWasSealed<Env, Tag>(job: Job<Env, Tag>, store: map<int, Env>,
                                                    states: seq<State<Env, Tag>>, actions: seq<Action>, k: nat)
    requires IsRun(job, store, states, actions) && k < |states|
    ensures Alive(states[k]) <= SealedSoFar(job, states[k]) <= |job.plan|
    decreases k
  {
    RunsAreOrderly(job, store, states, actions, k);
    if k == 0 {
      IdleAlive<Env>(job.workers);
    } else {
      AliveWasSealed(job, store, states, actions, k - 1);
      RunsAreOrderly(job, store, states, actions, k - 1);
      hide Alive, Enabled, Step;
      StepKeepsSealed(job, states[k - 1], actions[k - 1]);
    }
  }

  lemma {:induction false} IdleAlive<Env>(n: nat)
    ensures AliveInWorkers(seq<Worker<Env>>(n, i => Idle)) == 0
  {
    if n > 0 {
      IdleAlive<Env>(n - 1);
      assert seq<Worker<Env>>(n, i => Idle)[1..] == seq<Worker<Env>>(n - 1, i => Idle);
    }
  }

  /** Some run of the job has more envelopes alive than this, at some point. */
  ghost predicate CanExceed<Env(!new), Tag(!new)>(job: Job<Env, Tag>, store: map<int, Env>, bound: nat) {
    exists states: seq<State<Env, Tag>>, actions: seq<Action> ::
      IsRun(job, store, states, actions) && Alive(states[|actions|]) > bound
  }

  /** The documented bound `concurrency + prepare_ahead` is exceeded by some run exactly when
      `prepare_ahead` is 0 and there are more parts than workers. */
  lemma DocumentedBoundFails<Env(!new), Tag(!new)>(job: Job<Env, Tag>, prepareAhead: nat, store: map<int, Env>)
    requires job.capacity == ChannelCapacity(prepareAhead)
    ensures CanExceed(job, store, job.workers + prepareAhead) <==> prepareAhead == 0 && job.workers < |job.plan|
  {
    if prepareAhead == 0 && job.workers < |job.plan| {
      var states, actions := OneMoreThanWorkers(job, store);
    } else {
      forall states: seq<State<Env, Tag>>, actions: seq<Action> | IsRun(job, store, states, actions)
        ensures Alive(states[|actions|]) <= job.workers + prepareAhead
      {
        EnvelopesAreBounded(job, prepareAhead, store, states, actions, |actions|);
        AliveWasSealed(job, store, states, actions, |actions|);
      }
    }
  }

  /** The serial loop has one envelope alive at a time. */
  const SERIAL_ALIVE: nat := 1

  /** The same of the upload as a whole, which takes the serial loop at one worker and nothing
      prepared ahead. */
  ghost predicate UploadCanExceed<Env(!new), Tag(!new)>(job: Job<Env, Tag>, prepareAhead: nat, store: map<int, Env>,
                                                        bound: nat) {
    if job.workers <= 1 && prepareAhead == 0 then SERIAL_ALIVE > bound else CanExceed(job, store, bound)
  }

  /** So an upload exceeds the documented bound exactly when `prepare_ahead` is 0, there are two
      workers or more, and more parts than workers; a worker there always is. */
  lemma UploadBoundFails<Env(!new), Tag(!new)>(job: Job<Env, Tag>, prepareAhead: nat, store: map<int, Env>)
    requires job.capacity == ChannelCapacity(prepareAhead) && job.workers >= 1
    ensures UploadCanExceed(job, prepareAhead, store, job.workers + prepareAhead)
            <==> prepareAhead == 0 && 2 <= job.workers < |job.plan|
  {
    hide CanExceed;
    DocumentedBoundFails(job, prepareAhead, store);
  }

  /** On a rendezvous with more parts than workers, a run that hands every worker a part and
      seals one more. */
  lemma OneMoreThanWorkers<Env, Tag>(job: Job<Env, Tag>, store: map<int, Env>)
      returns (states: seq<State<Env, Tag>>, actions: seq<Action>)
    requires job.capacity == 0 && job.workers < |job.plan|
    ensures IsRun(job, store, states, actions) && Alive(states[|actions|]) == job.workers + 1
  {
    states, actions := HandAll(job, store, job.workers);
    var ws := states[|actions|].workers;
    hide IsRun;
    states, actions := Extend(job, store, states, actions, SealNext(true));
    AllAlive(ws);
  }

  /** The workers when the first `n` hold the first `n` parts. */
  function Handed<Env, Tag>(job: Job<Env, Tag>, n: nat): seq<Worker<Env>>
    requires n <= |job.plan|
  {
    seq(job.workers, (i: nat) => if i < n then Holding(Ready(job.plan[i], job.seal(job.plan[i]))) else Idle)
  }

  lemma {:induction false} HandAll<Env, Tag>(job: Job<Env, Tag>, store: map<int, Env>, n: nat)
      returns (states: seq<State<Env, Tag>>, actions: seq<Action>)
    requires job.capacity == 0 && n <= job.workers <= |job.plan|
    ensures IsRun(job, store, states, actions)
    ensures states[|actions|] == State(Deciding(n), [], Handed(job, n), None, false, [], store)
    decreases n
  {
    if n == 0 {
      states, actions := Extend(job, store, [Initial(job, store)], [], OpenSource(true));
      assert Handed(job, 0) == Initial(job, store).workers;
    } else {
      states, actions := HandAll(job, store, n - 1);
      hide IsRun;
      states, actions := Extend(job, store, states, actions, SealNext(true));
      states, actions := Extend(job, store, states, actions, Lock(n - 1));
      states, actions := Extend(job, store, states, actions, HandOver(n - 1));
      assert states[|actions|].workers == Handed(job, n);
    }
  }

  lemma {:induction false} AllAlive<Env>(ws: seq<Worker<Env>>)
    requires forall i :: 0 <= i < |ws| ==> ws[i].Holding? && ws[i].item.Ready?
    ensures AliveInWorkers(ws) == |ws|
  {
    if ws != [] {
      AllAlive(ws[1..]);
    }
  }

  lemma Extend<Env, Tag>(job: Job<Env, Tag>, store: map<int, Env>, states: seq<State<Env, Tag>>, actions: seq<Action>,
                         a: Action) returns (states': seq<State<Env, Tag>>, actions': seq<Action>)
    requires IsRun(job, store, states, actions) && Enabled(job, states[|actions|], a)
    ensures IsRun(job, store, states', actions')
    ensures states'[|actions'|] == Step(job, states[|actions|], a)
  {
    states', actions' := states + [Step(job, states[|actions|], a)], actions + [a];
  }
}
