/** The keep-alive pool of a download (`DownloadPool`, `request_with_pool`,
    cli/src/bucket_transport.rs). */
module ConnectionPool {
  import opened Hashing
  import opened BucketTransport

  /** What the status line and headers of a response say. */
  type Parser = seq<byte> -> Option<Head>

  /** A connection: which one, the authority it was opened for, all the bytes its server sends
      on it, how many of them have been read, and how many responses. */
  datatype Connection = Connection(id: nat, authority: nat, stream: seq<byte>, consumed: nat, answered: nat)

  datatype Idle = Idle(authority: nat, conn: Connection)

  function Position(idle: seq<Idle>, authority: nat): Option<nat> {
    PositionFrom(idle, authority, 0)
  }

  function PositionFrom(idle: seq<Idle>, authority: nat, i: nat): (r: Option<nat>)
    ensures r.Some? ==> i <= r.value < |idle| && idle[r.value].authority == authority
    ensures r.None? ==> forall k :: i <= k < |idle| ==> idle[k].authority != authority
    decreases |idle| - i
  {
    if i >= |idle| then None
    else if idle[i].authority == authority then Some(i)
    else PositionFrom(idle, authority, i + 1)
  }

  /** `Vec::swap_remove`: the last element takes the place of the one removed. */
  function SwapRemove(idle: seq<Idle>, at: nat): seq<Idle>
    requires at < |idle|
  {
    var last := |idle| - 1;
    if at == last then idle[..last] else idle[..last][at := idle[last]]
  }

  /** The pool itself: a list of idle connections under a lock. */
  class DownloadPool {
    var idle: seq<Idle>

    constructor ()
      ensures idle == []
    {
      idle := [];
    }

    /** Hands out an idle connection of this authority, and keeps all the others. */
    method Take(authority: nat) returns (r: Option<Connection>)
      modifies this
      ensures r.None? <==> forall k :: 0 <= k < |old(idle)| ==> old(idle)[k].authority != authority
      ensures r.None? ==> idle == old(idle)
      ensures r.Some? ==> multiset(idle) + multiset{Idle(authority, r.value)} == multiset(old(idle))
      ensures (r, idle) == Drawn(old(idle), authority)
    {
      var at := Position(idle, authority);
      if at.None? {
        return None;
      }
      r := Some(idle[at.value].conn);
      SwapRemoveTakesOne(idle, at.value);
      idle := SwapRemove(idle, at.value);
    }

    method PutBack(authority: nat, conn: Connection)
      modifies this
      ensures idle == old(idle) + [Idle(authority, conn)]
    {
      idle := idle + [Idle(authority, conn)];
    }
  }

  function Drawn(idle: seq<Idle>, authority: nat): (Option<Connection>, seq<Idle>) {
    var at := Position(idle, authority);
    if at.None? then (None, idle) else (Some(idle[at.value].conn), SwapRemove(idle, at.value))
  }

  lemma SwapRemoveTakesOne(idle: seq<Idle>, at: nat)
    requires at < |idle|
    ensures multiset(SwapRemove(idle, at)) + multiset{idle[at]} == multiset(idle)
  {
    var last := |idle| - 1;
    assert idle == idle[..last] + [idle[last]];
  }

  // ---- every worker at once ------------------------------------------------

  const DOWNLOAD_ATTEMPTS: nat := 3

  /** Where one worker is in the fetch of a range. The first attempt may draw on the pool; the
      others wait and open. `reused` says the connection came out of the pool. */
  datatype Worker =
    | Away
    | Starting(authority: nat, allowReuse: bool)
    | Opening(authority: nat, attempt: nat)
    | Exchanging(authority: nat, attempt: nat, conn: Connection, reused: bool)
    | Waiting(authority: nat, attempt: nat)

  /** A data response and the connection it came on, as that stood before. */
  datatype Served = Served(conn: Connection, body: seq<byte>)

  /** What a fetch comes to: the bytes, an address storage no longer takes, or an error. */
  datatype Result = Fetched(body: seq<byte>) | UrlRejected | Failed

  /** `made` counts the connections opened, `shut` lists those shut down, `served` the data
      responses read and `ended` the fetches that came to an end, by worker, in order. */
  datatype State = State(idle: seq<Idle>, workers: seq<Worker>, made: nat, shut: seq<nat>, served: seq<Served>,
                         ended: seq<(nat, Result)>)

  function Initial(workers: nat): State {
    State([], seq(workers, i => Away), 0, [], [], [])
  }

  /** One step of one worker: a fetch begins; it takes from the pool or finds nothing; it opens
      a connection, on which the server will send `stream`, or cannot; the exchange breaks, or
      the reader comes back with a response, `read` bytes on; a later attempt begins. */
  datatype Action =
    | Begin(w: nat, authority: nat)
    | TakeIdle(w: nat)
    | Open(w: nat, stream: seq<byte>)
    | CannotOpen(w: nat)
    | Break(w: nat)
    | Answer(w: nat, read: nat, response: Response)
    | Retry(w: nat)

  ghost predicate Enabled(parse: Parser, s: State, a: Action) {
    && a.w < |s.workers|
    && match a
       case Begin(w, _) => s.workers[w].Away?
       case TakeIdle(w) => s.workers[w].Starting?
       case Open(w, _) => s.workers[w].Opening?
       case CannotOpen(w) => s.workers[w].Opening?
       case Break(w) => s.workers[w].Exchanging?
       case Answer(w, read, response) => s.workers[w].Exchanging? && Reads(parse, s.workers[w].conn, read, response)
       case Retry(w) => s.workers[w].Waiting?
  }

  /** What `ReadResponse` may return on a connection as it stands. */
  ghost predicate Reads(parse: Parser, conn: Connection, read: nat, response: Response) {
    conn.consumed <= |conn.stream| && IsAnswer(conn.stream[conn.consumed..], read, true, parse, response)
  }

  /** After an attempt that failed: another, or the end of the fetch. */
  function AfterFailure(authority: nat, attempt: nat): Worker {
    if attempt < DOWNLOAD_ATTEMPTS then Waiting(authority, attempt + 1) else Away
  }

  /** The worker goes on so; if that is away, its fetch has come to this. */
  function Going(s: State, w: nat, next: Worker, result: Result): State
    requires w < |s.workers|
  {
    s.(workers := s.workers[w := next], ended := if next.Away? then s.ended + [(w, result)] else s.ended)
  }

  function Verdict(response: Response): Result {
    if response.status == 200 || response.status == 206 then Fetched(response.body)
    else if response.status == 403 then UrlRejected
    else Failed
  }

  function Advanced(conn: Connection, read: nat): Connection {
    conn.(consumed := conn.consumed + read, answered := conn.answered + 1)
  }

  function AnswerStep(s: State, w: nat, read: nat, response: Response): State
    requires w < |s.workers| && s.workers[w].Exchanging?
  {
    var worker := s.workers[w];
    var next := if 300 <= response.status < 400 || 500 <= response.status < 600
                then AfterFailure(worker.authority, worker.attempt) else Away;
    var kept := worker.attempt == 1 && response.reusable;
    Going(s, w, next, Verdict(response)).(
       idle := if kept then s.idle + [Idle(worker.authority, Advanced(worker.conn, read))] else s.idle,
       shut := if kept then s.shut else s.shut + [worker.conn.id],
       served := if response.status < 300 then s.served + [Served(worker.conn, response.body)] else s.served)
  }

  function Step(s: State, a: Action): State
    requires a.w < |s.workers|
    requires a.TakeIdle? ==> s.workers[a.w].Starting?
    requires a.Open? || a.CannotOpen? ==> s.workers[a.w].Opening?
    requires a.Break? || a.Answer? ==> s.workers[a.w].Exchanging?
    requires a.Retry? ==> s.workers[a.w].Waiting?
  {
    match a
    case Begin(w, authority) => s.(workers := s.workers[w := Starting(authority, true)])
    case TakeIdle(w) =>
      var authority := s.workers[w].authority;
      var (conn, rest) := if s.workers[w].allowReuse then Drawn(s.idle, authority) else (None, s.idle);
      if conn.None? then s.(workers := s.workers[w := Opening(authority, 1)])
      else s.(idle := rest, workers := s.workers[w := Exchanging(authority, 1, conn.value, true)])
    case Open(w, stream) =>
      var worker := s.workers[w];
      var conn := Connection(s.made, worker.authority, stream, 0, 0);
      s.(made := s.made + 1, workers := s.workers[w := Exchanging(worker.authority, worker.attempt, conn, false)])
    case CannotOpen(w) =>
      Going(s, w, AfterFailure(s.workers[w].authority, s.workers[w].attempt), Failed)
    case Break(w) =>
      var worker := s.workers[w];
      var next := if worker.reused then Starting(worker.authority, false)
                  else AfterFailure(worker.authority, worker.attempt);
      Going(s, w, next, Failed).(shut := s.shut + [worker.conn.id])
    case Answer(w, read, response) => AnswerStep(s, w, read, response)
    case Retry(w) => s.(workers := s.workers[w := Opening(s.workers[w].authority, s.workers[w].attempt)])
  }

  ghost predicate IsRun(parse: Parser, workers: nat, states: seq<State>, actions: seq<Action>) {
    && |states| == |actions| + 1 && states[0] == Initial(workers)
    && forall i ::
        0 <= i < |actions| ==> Enabled(parse, states[i], actions[i]) && states[i + 1] == Step(states[i], actions[i])
  }

  // ---- counting ------------------------------------------------------------

  function Sum<T>(s: seq<T>, f: T -> nat): nat {
    if s == [] then 0 else Sum(s[..|s| - 1], f) + f(s[|s| - 1])
  }

  lemma {:induction false} SumUpdate<T>(s: seq<T>, at: nat, x: T, f: T -> nat)
    requires at < |s|
    ensures Sum(s[at := x], f) + f(s[at]) == Sum(s, f) + f(x)
  {
    var last := |s| - 1;
    if at == last {
      assert s[at := x][..last] == s[..last];
    } else {
      SumUpdate(s[..last], at, x, f);
      assert s[at := x][..last] == s[..last][at := x];
    }
  }

  lemma SumAppend<T>(s: seq<T>, x: T, f: T -> nat)
    ensures Sum(s + [x], f) == Sum(s, f) + f(x)
  {
    assert (s + [x])[..|s|] == s;
  }

  lemma SumSwapRemove(idle: seq<Idle>, at: nat, f: Idle -> nat)
    requires at < |idle|
    ensures Sum(SwapRemove(idle, at), f) + f(idle[at]) == Sum(idle, f)
  {
    var last := |idle| - 1;
    if at != last {
      SumUpdate(idle[..last], at, idle[last], f);
    }
  }

  lemma {:induction false} SumZero<T>(s: seq<T>, f: T -> nat)
    requires forall k :: 0 <= k < |s| ==> f(s[k]) == 0
    ensures Sum(s, f) == 0
  {
    if s != [] {
      SumZero(s[..|s| - 1], f);
    }
  }

  lemma {:induction false} SumCovers<T>(s: seq<T>, f: T -> nat, i: nat)
    requires i < |s|
    ensures f(s[i]) <= Sum(s, f)
  {
    if i < |s| - 1 {
      SumCovers(s[..|s| - 1], f, i);
    }
  }

  lemma {:induction false} SumCoversTwo<T>(s: seq<T>, f: T -> nat, i: nat, j: nat)
    requires i < j < |s|
    ensures f(s[i]) + f(s[j]) <= Sum(s, f)
  {
    if j == |s| - 1 {
      SumCovers(s[..j], f, i);
    } else {
      SumCoversTwo(s[..|s| - 1], f, i, j);
    }
  }

  lemma {:induction false} SumAtMost<T>(s: seq<T>, f: T -> nat)
    requires forall x :: f(x) <= 1
    ensures Sum(s, f) <= |s|
  {
    if s != [] {
      SumAtMost(s[..|s| - 1], f);
    }
  }

  function IdleTo(authority: nat): Idle -> nat {
    (i: Idle) => if i.authority == authority then 1 else 0
  }

  /** In a fetch from the authority and past the pool, for all of its attempts. */
  function BusyTo(authority: nat): Worker -> nat {
    (w: Worker) =>
      if !w.Away? && !(w.Starting? && w.allowReuse) && w.authority == authority then 1 else 0
  }

  function IdleAs(id: nat): Idle -> nat {
    (i: Idle) => if i.conn.id == id then 1 else 0
  }

  function UsedAs(id: nat): Worker -> nat {
    (w: Worker) => if w.Exchanging? && w.conn.id == id then 1 else 0
  }

  function ShutAs(id: nat): nat -> nat {
    (x: nat) => if x == id then 1 else 0
  }

  function ServedOn(id: nat): Served -> nat {
    (x: Served) => if x.conn.id == id then 1 else 0
  }

  // ---- what every step keeps -----------------------------------------------

  /** The connections of an authority never outnumber the workers. */
  ghost predicate Bounded(n: nat, s: State) {
    |s.workers| == n && forall a: nat :: Sum(s.idle, IdleTo(a)) + Sum(s.workers, BusyTo(a)) <= n
  }

  function Places(s: State, id: nat): nat {
    Sum(s.idle, IdleAs(id)) + Sum(s.workers, UsedAs(id)) + Sum(s.shut, ShutAs(id))
  }

  /** Every connection opened is in exactly one place: in use by one request, idle once, or
      shut down once. */
  ghost predicate Conserved(s: State) {
    forall id: nat :: Places(s, id) == if id < s.made then 1 else 0
  }

  lemma OneWorkerMoves(parse: Parser, s: State, a: Action)
    requires Enabled(parse, s, a)
    ensures a.w < |s.workers| == |Step(s, a).workers|
    ensures Step(s, a).workers == s.workers[a.w := Step(s, a).workers[a.w]]
  {
    hide Reads;
  }

  /** What a step does to a tally of the idle connections. */
  lemma IdleAfter(parse: Parser, s: State, a: Action, f: Idle -> nat)
    requires Enabled(parse, s, a)
    ensures var w, w' := s.workers[a.w], Step(s, a).workers[a.w];
            var before, after := Sum(s.idle, f), Sum(Step(s, a).idle, f);
            match a
            case TakeIdle(_) =>
              if w'.Exchanging? then after + f(Idle(w.authority, w'.conn)) == before
              else
                && after == before
                && (w.allowReuse ==> forall k :: 0 <= k < |s.idle| ==> s.idle[k].authority != w.authority)
            case Answer(_, read, response) =>
              var kept := w.attempt == 1 && response.reusable;
              after == before + if kept then f(Idle(w.authority, Advanced(w.conn, read))) else 0
            case _ => after == before
  {
    hide Sum, SwapRemove, Reads;
    if a.TakeIdle? {
      var at := Position(s.idle, s.workers[a.w].authority);
      if at.Some? {
        SumSwapRemove(s.idle, at.value, f);
      }
    } else if a.Answer? && s.workers[a.w].attempt == 1 && a.response.reusable {
      SumAppend(s.idle, Idle(s.workers[a.w].authority, Advanced(s.workers[a.w].conn, a.read)), f);
    }
  }

  lemma StepKeepsBounded(parse: Parser, n: nat, s: State, a: Action)
    requires Enabled(parse, s, a) && Bounded(n, s)
    requires a.Answer? && a.response.reusable ==> a.response.status < 300
    ensures Bounded(n, Step(s, a))
  {
    hide Sum, Drawn, Reads;
    var s' := Step(s, a);
    OneWorkerMoves(parse, s, a);
    forall x: nat ensures Sum(s'.idle, IdleTo(x)) + Sum(s'.workers, BusyTo(x)) <= n {
      SumUpdate(s.workers, a.w, s'.workers[a.w], BusyTo(x));
      IdleAfter(parse, s, a, IdleTo(x));
      if a.TakeIdle? && s'.workers[a.w].Opening? && s.workers[a.w].allowReuse && s.workers[a.w].authority == x {
        SumZero(s.idle, IdleTo(x));
        SumAtMost(s'.workers, BusyTo(x));
      }
    }
  }

  lemma StepConserves(parse: Parser, s: State, a: Action)
    requires Enabled(parse, s, a) && Conserved(s)
    ensures Conserved(Step(s, a))
  {
    hide Sum, Drawn, Reads;
    var s' := Step(s, a);
    OneWorkerMoves(parse, s, a);
    forall id: nat ensures Places(s', id) == if id < s'.made then 1 else 0 {
      assert Places(s, id) == if id < s.made then 1 else 0;
      SumUpdate(s.workers, a.w, s'.workers[a.w], UsedAs(id));
      IdleAfter(parse, s, a, IdleAs(id));
      if a.Answer? || a.Break? {
        SumAppend(s.shut, s.workers[a.w].conn.id, ShutAs(id));
      }
    }
  }

  /** No two requests share a connection, none uses an idle one, and what was shut down is
      neither. */
  lemma NeverShared(s: State, v: nat, w: nat)
    requires Conserved(s) && v < |s.workers| && s.workers[v].Exchanging?
    ensures v != w && w < |s.workers| && s.workers[w].Exchanging? ==> s.workers[v].conn.id != s.workers[w].conn.id
    ensures forall i :: 0 <= i < |s.idle| ==> s.idle[i].conn.id != s.workers[v].conn.id
    ensures s.workers[v].conn.id !in s.shut && s.workers[v].conn.id < s.made
  {
    hide Sum;
    var id := s.workers[v].conn.id;
    assert Places(s, id) <= 1;
    SumCovers(s.workers, UsedAs(id), v);
    if v != w && w < |s.workers| {
      SumCoversTwo(s.workers, UsedAs(id), if v < w then v else w, if v < w then w else v);
    }
    forall i | 0 <= i < |s.idle| ensures s.idle[i].conn.id != id {
      SumCovers(s.idle, IdleAs(id), i);
    }
    forall i | 0 <= i < |s.shut| ensures s.shut[i] != id {
      SumCovers(s.shut, ShutAs(id), i);
    }
  }

  // ---- message boundaries --------------------------------------------------

  /** The response at the head of these bytes: where its headers end and how long its body is,
      if all of it is there (section 6.3 of RFC 9112, by Content-Length). */
  function Frame(parse: Parser, s: seq<byte>): (r: Option<(nat, nat)>)
    ensures r.Some? ==> r.value.0 + r.value.1 <= |s|
  {
    var h := HeadersEnd(s);
    if h.None? || parse(s[..h.value]).None? then None
    else
      var head := parse(s[..h.value]).value;
      if head.chunked || head.contentLength.None? || h.value + head.contentLength.value > |s| then None
      else Some((h.value, head.contentLength.value))
  }

  /** Where the `k`-th response on a stream begins, counting from 0. */
  function Boundary(parse: Parser, stream: seq<byte>, k: nat): (r: Option<nat>)
    ensures r.Some? ==> r.value <= |stream|
  {
    if k == 0 then Some(0)
    else
      match Boundary(parse, stream, k - 1)
      case None => None
      case Some(from) =>
        match Frame(parse, stream[from..])
        case None => None
        case Some((h, length)) => Some(from + h + length)
  }

  /** The body of the `k`-th response on a stream. */
  function BodyAt(parse: Parser, stream: seq<byte>, k: nat): Option<seq<byte>> {
    match Boundary(parse, stream, k)
    case None => None
    case Some(from) =>
      match Frame(parse, stream[from..])
      case None => None
      case Some((h, length)) => Some(stream[from..][h..h + length])
  }

  /** A response as a server sends it, declaring its length. */
  datatype Message = Message(head: seq<byte>, body: seq<byte>)

  ghost predicate Declares(parse: Parser, m: Message) {
    && HeadersEnd(m.head) == Some(|m.head|) && parse(m.head).Some?
    && !parse(m.head).value.chunked && parse(m.head).value.contentLength == Some(|m.body|)
  }

  function Sent(messages: seq<Message>): seq<byte> {
    if messages == [] then [] else messages[0].head + messages[0].body + Sent(messages[1..])
  }

  /** Against a server that sends what it declares, the boundaries are where its own messages
      begin and the bodies are theirs, whatever follows them. */
  lemma {:induction false} FramingIsTheServers(parse: Parser, messages: seq<Message>, more: seq<byte>, k: nat)
    requires k < |messages| && forall i :: 0 <= i < |messages| ==> Declares(parse, messages[i])
    ensures Boundary(parse, Sent(messages) + more, k) == Some(|Sent(messages[..k])|)
    ensures BodyAt(parse, Sent(messages) + more, k) == Some(messages[k].body)
  {
    hide Frame, Sent;
    if k == 0 {
      NothingSent(messages);
    } else {
      FramingIsTheServers(parse, messages, more, k - 1);
      MessageAt(parse, messages, more, k - 1);
    }
    MessageAt(parse, messages, more, k);
  }

  lemma NothingSent(messages: seq<Message>)
    ensures Sent(messages[..0]) == []
  {
  }

  lemma MessageAt(parse: Parser, messages: seq<Message>, more: seq<byte>, k: nat)
    requires k < |messages| && Declares(parse, messages[k])
    ensures var stream, from, m := Sent(messages) + more, |Sent(messages[..k])|, messages[k];
            && from <= |stream| && Frame(parse, stream[from..]) == Some((|m.head|, |m.body|))
            && stream[from..][|m.head|..|m.head| + |m.body|] == m.body
            && |Sent(messages[..k + 1])| == from + |m.head| + |m.body|
  {
    hide Frame, Declares;
    var stream, from, m := Sent(messages) + more, |Sent(messages[..k])|, messages[k];
    SentSplits(messages, k);
    SentSplits(messages[..k + 1], k);
    assert messages[..k + 1][..k] == messages[..k] && messages[..k + 1][k + 1..] == [];
    assert Sent(messages[..k + 1][k + 1..]) == [];
    hide Sent;
    assert stream[from..] == m.head + m.body + (Sent(messages[k + 1..]) + more);
    FrameOfMessage(parse, m, Sent(messages[k + 1..]) + more);
  }

  lemma {:induction false} SentSplits(messages: seq<Message>, k: nat)
    requires k < |messages|
    ensures Sent(messages) == Sent(messages[..k]) + (messages[k].head + messages[k].body) + Sent(messages[k + 1..])
  {
    if k == 0 {
      assert messages[..0] == [];
    } else {
      SentSplits(messages[1..], k - 1);
      assert messages[1..][..k - 1] == messages[..k][1..] && messages[1..][k..] == messages[k + 1..];
    }
  }

  lemma FrameOfMessage(parse: Parser, m: Message, rest: seq<byte>)
    requires Declares(parse, m)
    ensures Frame(parse, m.head + m.body + rest) == Some((|m.head|, |m.body|))
    ensures (m.head + m.body + rest)[|m.head|..|m.head| + |m.body|] == m.body
  {
    hide HeadersEnd;
    var s := m.head + m.body + rest;
    assert s[..|m.head|] == m.head;
    PrefixEnd(s, |m.head|);
  }

  /** What is idle or in use is under the authority it was opened for, and exactly the
      responses read on it have been consumed. */
  ghost predicate InPosition(parse: Parser, conn: Connection, authority: nat) {
    conn.authority == authority && Boundary(parse, conn.stream, conn.answered) == Some(conn.consumed)
  }

  ghost predicate Positioned(parse: Parser, s: State) {
    && (forall i :: 0 <= i < |s.idle| ==> InPosition(parse, s.idle[i].conn, s.idle[i].authority))
    && (forall w :: 0 <= w < |s.workers| && s.workers[w].Exchanging? ==>
          InPosition(parse, s.workers[w].conn, s.workers[w].authority))
  }

  /** A data response read where a response begins is that response, and one fit for reuse
      leaves the connection where the next one begins. */
  lemma AnswerFrames(parse: Parser, conn: Connection, read: nat, response: Response)
    requires Reads(parse, conn, read, response) && Boundary(parse, conn.stream, conn.answered) == Some(conn.consumed)
    ensures response.status < 300 ==> BodyAt(parse, conn.stream, conn.answered) == Some(response.body)
    ensures response.reusable ==>
              && response.status < 300
              && Boundary(parse, conn.stream, conn.answered + 1) == Some(conn.consumed + read)
  {
    hide HeadersEnd;
  }

  lemma StepPositions(parse: Parser, s: State, a: Action)
    requires Enabled(parse, s, a) && Positioned(parse, s)
    ensures Positioned(parse, Step(s, a))
  {
    hide InPosition, Reads, Drawn;
    var s' := Step(s, a);
    OneWorkerMoves(parse, s, a);
    if a.Answer? && a.response.reusable {
      StaysInPosition(parse, s.workers[a.w].conn, s.workers[a.w].authority, a.read, a.response);
    } else if a.TakeIdle? && s'.workers[a.w].Exchanging? {
      DrawnLeaves(s.idle, s.workers[a.w].authority);
    } else if a.Open? {
      StartsInPosition(parse, s'.workers[a.w].conn);
    }
  }

  lemma StartsInPosition(parse: Parser, conn: Connection)
    requires conn.consumed == conn.answered == 0
    ensures InPosition(parse, conn, conn.authority)
  {
  }

  lemma StaysInPosition(parse: Parser, conn: Connection, authority: nat, read: nat, response: Response)
    requires InPosition(parse, conn, authority) && Reads(parse, conn, read, response) && response.reusable
    ensures InPosition(parse, Advanced(conn, read), authority)
  {
    hide Reads, Boundary;
    AnswerFrames(parse, conn, read, response);
  }

  /** A connection drawn from the pool was idle there for the authority, and those left were
      there before. */
  lemma DrawnLeaves(idle: seq<Idle>, authority: nat)
    requires Drawn(idle, authority).0.Some?
    ensures exists i :: 0 <= i < |idle| && idle[i] == Idle(authority, Drawn(idle, authority).0.value)
    ensures forall i :: 0 <= i < |Drawn(idle, authority).1| ==> Drawn(idle, authority).1[i] in idle
  {
    var at := Position(idle, authority).value;
    var rest := SwapRemove(idle, at);
    assert forall i :: 0 <= i < |rest| ==> rest[i] == idle[if i == at then |idle| - 1 else i];
  }

  /** Every data response was read where one begins and is that one; and as many were read on
      its connection before it as there are before it on the stream. */
  ghost predicate IsServed(parse: Parser, x: Served, earlier: seq<Served>) {
    && Boundary(parse, x.conn.stream, x.conn.answered) == Some(x.conn.consumed)
    && BodyAt(parse, x.conn.stream, x.conn.answered) == Some(x.body)
    && x.conn.answered == Sum(earlier, ServedOn(x.conn.id))
  }

  ghost predicate Genuine(parse: Parser, s: State) {
    forall i :: 0 <= i < |s.served| ==> IsServed(parse, s.served[i], s.served[..i])
  }

  /** A connection counts the responses read on it; none was read on one not yet opened. */
  ghost predicate Counted(s: State) {
    && (forall i :: 0 <= i < |s.idle| ==> s.idle[i].conn.answered == Sum(s.served, ServedOn(s.idle[i].conn.id)))
    && (forall w :: 0 <= w < |s.workers| && s.workers[w].Exchanging? ==>
          s.workers[w].conn.answered == Sum(s.served, ServedOn(s.workers[w].conn.id)))
    && (forall id: nat :: id >= s.made ==> Sum(s.served, ServedOn(id)) == 0)
  }

  lemma StepKeepsGenuine(parse: Parser, s: State, a: Action)
    requires Enabled(parse, s, a) && Positioned(parse, s) && Counted(s) && Genuine(parse, s)
    ensures Genuine(parse, Step(s, a))
  {
    hide Sum, Drawn, Boundary, BodyAt, Reads;
    var s' := Step(s, a);
    if a.Answer? {
      AnswerFrames(parse, s.workers[a.w].conn, a.read, a.response);
      forall i | 0 <= i < |s'.served| ensures IsServed(parse, s'.served[i], s'.served[..i]) {
        assert s'.served[..i] == s.served[..i];
        assert s.served[..|s.served|] == s.served;
      }
    }
  }

  /** What a step does to the count of responses read on a connection. */
  lemma ServedAfter(parse: Parser, s: State, a: Action, id: nat)
    requires Enabled(parse, s, a)
    ensures Sum(Step(s, a).served, ServedOn(id))
            == Sum(s.served, ServedOn(id))
               + if a.Answer? && a.response.status < 300 && s.workers[a.w].conn.id == id then 1 else 0
  {
    hide Sum, Drawn, Reads;
    if a.Answer? && a.response.status < 300 {
      SumAppend(s.served, Served(s.workers[a.w].conn, a.response.body), ServedOn(id));
    }
  }

  lemma StepKeepsCounted(parse: Parser, s: State, a: Action)
    requires Enabled(parse, s, a) && Positioned(parse, s) && Conserved(s) && Counted(s)
    ensures Counted(Step(s, a))
  {
    hide Sum, Drawn, Reads, Places, Boundary;
    var s' := Step(s, a);
    OneWorkerMoves(parse, s, a);
    if s.workers[a.w].Exchanging? {
      NeverShared(s, a.w, a.w);
    }
    if a.Answer? {
      AnswerFrames(parse, s.workers[a.w].conn, a.read, a.response);
    }
    if a.TakeIdle? && s'.workers[a.w].Exchanging? {
      DrawnLeaves(s.idle, s.workers[a.w].authority);
    }
    forall i | 0 <= i < |s'.idle| ensures s'.idle[i].conn.answered == Sum(s'.served, ServedOn(s'.idle[i].conn.id)) {
      ServedAfter(parse, s, a, s'.idle[i].conn.id);
    }
    forall w | 0 <= w < |s'.workers| && s'.workers[w].Exchanging?
      ensures s'.workers[w].conn.answered == Sum(s'.served, ServedOn(s'.workers[w].conn.id))
    {
      ServedAfter(parse, s, a, s'.workers[w].conn.id);
      if s.workers[a.w].Exchanging? {
        NeverShared(s, a.w, w);
      }
    }
    forall id: nat | id >= s'.made ensures Sum(s'.served, ServedOn(id)) == 0 {
      ServedAfter(parse, s, a, id);
    }
  }

  /** Over every interleaving of fetches with their retries: never more connections to an
      authority than workers; every connection opened is in use by one request, idle once or
      shut down once; every one that is idle or in use is to its own authority and has had
      exactly the responses read on it consumed; and the `k`-th data response read on a
      connection is the `k`-th response its server sent on it. */
  lemma {:induction false} PoolIsSafe(parse: Parser, n: nat, states: seq<State>, actions: seq<Action>, k: nat)
    requires IsRun(parse, n, states, actions) && k < |states|
    ensures var s := states[k];
            Bounded(n, s) && Conserved(s) && Positioned(parse, s) && Counted(s) && Genuine(parse, s)
    decreases k
  {
    if k == 0 {
      StartsSafe(parse, n);
    } else {
      hide Enabled, Step, Bounded, Conserved, Positioned, Counted, Genuine;
      PoolIsSafe(parse, n, states, actions, k - 1);
      var s, a := states[k - 1], actions[k - 1];
      ReusableIsData(parse, s, a);
      StepKeepsBounded(parse, n, s, a);
      StepConserves(parse, s, a);
      StepPositions(parse, s, a);
      StepKeepsCounted(parse, s, a);
      StepKeepsGenuine(parse, s, a);
    }
  }

  lemma ReusableIsData(parse: Parser, s: State, a: Action)
    requires Enabled(parse, s, a)
    ensures a.Answer? && a.response.reusable ==> a.response.status < 300
  {
    hide HeadersEnd;
  }

  lemma StartsSafe(parse: Parser, n: nat)
    ensures var s := Initial(n);
            Bounded(n, s) && Conserved(s) && Positioned(parse, s) && Counted(s) && Genuine(parse, s)
  {
    var s := Initial(n);
    forall a: nat ensures Sum(s.workers, BusyTo(a)) == 0 {
      SumZero(s.workers, BusyTo(a));
    }
    forall id: nat ensures Places(s, id) == 0 {
      SumZero(s.workers, UsedAs(id));
    }
  }

  // ---- how often a fetch exchanges -----------------------------------------

  /** The exchanges one worker has in a stretch of a run. */
  function Exchanges(actions: seq<Action>, w: nat, i: nat, j: nat): nat
    requires i <= j <= |actions|
  {
    if i == j then 0
    else Exchanges(actions, w, i, j - 1) + if IsExchange(actions[j - 1], w) then 1 else 0
  }

  /** The exchanges still possible in the attempt at hand. */
  function LeftInAttempt(w: Worker): nat {
    match w
    case Starting(_, allowReuse) => if allowReuse then 2 else 1
    case Opening(_, _) => 1
    case Exchanging(_, _, _, reused) => if reused then 2 else 1
    case Waiting(_, _) => 0
    case Away => 0
  }

  /** And in the whole fetch. */
  function LeftInFetch(w: Worker): nat {
    var attempt := match w
      case Starting(_, _) => 1
      case Opening(_, k) => k
      case Exchanging(_, k, _, _) => k
      case Waiting(_, k) => if k >= 1 then k - 1 else 0
      case Away => DOWNLOAD_ATTEMPTS;
    LeftInAttempt(w) + if attempt <= DOWNLOAD_ATTEMPTS then DOWNLOAD_ATTEMPTS - attempt else 0
  }

  predicate IsExchange(a: Action, w: nat) {
    a.w == w && (a.Break? || a.Answer?)
  }

  /** Where a transport call begins: the first attempt of a fetch, or a later one. */
  predicate Calls(a: Action, w: nat) {
    a.w == w && (a.Begin? || a.Retry?)
  }

  predicate InBudget(w: Worker) {
    && (w.Opening? || w.Exchanging? || w.Waiting? ==> 1 <= w.attempt <= DOWNLOAD_ATTEMPTS)
    && (w.Exchanging? && w.reused ==> w.attempt == 1)
  }

  lemma StepSpends(parse: Parser, s: State, a: Action, w: nat)
    requires Enabled(parse, s, a) && w < |s.workers| && InBudget(s.workers[w])
    ensures var before, after, spent := s.workers[w], Step(s, a).workers[w], if IsExchange(a, w) then 1 else 0;
            && InBudget(after)
            && ((a.w == w && a.Begin?) || LeftInFetch(after) + spent <= LeftInFetch(before))
            && (Calls(a, w) || LeftInAttempt(after) + spent <= LeftInAttempt(before))
  {
    hide Reads, Drawn;
  }

  lemma {:induction false} AlwaysInBudget(parse: Parser, n: nat, states: seq<State>, actions: seq<Action>, w: nat,
                                          k: nat)
    requires IsRun(parse, n, states, actions) && w < n && k < |states|
    ensures |states[k].workers| == n && InBudget(states[k].workers[w])
    decreases k
  {
    hide Enabled, Step, InBudget;
    if k == 0 {
      assert InBudget(Away) by { Idles(); }
    } else {
      AlwaysInBudget(parse, n, states, actions, w, k - 1);
      StepSpends(parse, states[k - 1], actions[k - 1], w);
      OneWorkerMoves(parse, states[k - 1], actions[k - 1]);
    }
  }

  lemma Idles()
    ensures InBudget(Away)
  {
  }

  lemma CallStarts(parse: Parser, s: State, a: Action, w: nat)
    requires Enabled(parse, s, a) && Calls(a, w) && InBudget(s.workers[w])
    ensures LeftInAttempt(Step(s, a).workers[w]) == if a.Begin? then 2 else 1
    ensures a.Begin? ==> LeftInFetch(Step(s, a).workers[w]) == DOWNLOAD_ATTEMPTS + 1
  {
    hide Reads, Drawn;
  }

  lemma {:induction false} AttemptSpends(
      parse: Parser, n: nat, states: seq<State>, actions: seq<Action>, w: nat, i: nat, j: nat)
    requires IsRun(parse, n, states, actions) && w < n && i <= j < |states|
    requires forall k :: i <= k < j ==> !Calls(actions[k], w)
    ensures |states[i].workers| == |states[j].workers| == n
    ensures Exchanges(actions, w, i, j) + LeftInAttempt(states[j].workers[w]) <= LeftInAttempt(states[i].workers[w])
    decreases j
  {
    hide Enabled, Step, LeftInAttempt;
    AlwaysInBudget(parse, n, states, actions, w, i);
    if i < j {
      AttemptSpends(parse, n, states, actions, w, i, j - 1);
      AlwaysInBudget(parse, n, states, actions, w, j - 1);
      AlwaysInBudget(parse, n, states, actions, w, j);
      StepSpends(parse, states[j - 1], actions[j - 1], w);
    }
  }

  lemma {:induction false} FetchSpends(
      parse: Parser, n: nat, states: seq<State>, actions: seq<Action>, w: nat, i: nat, j: nat)
    requires IsRun(parse, n, states, actions) && w < n && i <= j < |states|
    requires forall k :: i <= k < j ==> !(actions[k].w == w && actions[k].Begin?)
    ensures |states[i].workers| == |states[j].workers| == n
    ensures Exchanges(actions, w, i, j) + LeftInFetch(states[j].workers[w]) <= LeftInFetch(states[i].workers[w])
    decreases j
  {
    hide Enabled, Step, LeftInFetch;
    AlwaysInBudget(parse, n, states, actions, w, i);
    if i < j {
      FetchSpends(parse, n, states, actions, w, i, j - 1);
      AlwaysInBudget(parse, n, states, actions, w, j - 1);
      AlwaysInBudget(parse, n, states, actions, w, j);
      StepSpends(parse, states[j - 1], actions[j - 1], w);
    }
  }

  /** Over every run, from the start of a transport call to any later point of it: at most two
      exchanges on a first attempt, one on a later; and after the first exchange the connection
      is never one out of the pool. */
  lemma CallExchangesTwice(parse: Parser, n: nat, states: seq<State>, actions: seq<Action>, w: nat, i: nat, j: nat)
    requires IsRun(parse, n, states, actions) && w < n && i < j < |states| && Calls(actions[i], w)
    requires forall k :: i < k < j ==> !Calls(actions[k], w)
    ensures Exchanges(actions, w, i + 1, j) <= if actions[i].Begin? then 2 else 1
    ensures |states[j].workers| == n
    ensures Exchanges(actions, w, i + 1, j) >= 1 && states[j].workers[w].Exchanging? ==> !states[j].workers[w].reused
  {
    hide Enabled, Step, Exchanges;
    AlwaysInBudget(parse, n, states, actions, w, i);
    CallStarts(parse, states[i], actions[i], w);
    AttemptSpends(parse, n, states, actions, w, i + 1, j);
  }

  /** Over every run, a whole fetch, its retries included, has at most one exchange more than
      it has attempts. */
  lemma FetchExchangesBounded(parse: Parser, n: nat, states: seq<State>, actions: seq<Action>, w: nat, i: nat, j: nat)
    requires IsRun(parse, n, states, actions) && w < n && i < j < |states| && actions[i].w == w && actions[i].Begin?
    requires forall k :: i < k < j ==> !(actions[k].w == w && actions[k].Begin?)
    ensures Exchanges(actions, w, i + 1, j) <= DOWNLOAD_ATTEMPTS + 1
  {
    hide Enabled, Step, Exchanges;
    AlwaysInBudget(parse, n, states, actions, w, i);
    CallStarts(parse, states[i], actions[i], w);
    FetchSpends(parse, n, states, actions, w, i + 1, j);
  }

  /** A later attempt never draws on the pool and never gives to it: its connection is one it
      opened, and is shut down however the exchange ends. */
  lemma RetriesBypassThePool(parse: Parser, s: State, a: Action)
    requires Enabled(parse, s, a) && InBudget(s.workers[a.w])
    requires var w := s.workers[a.w]; (w.Waiting? || w.Opening? || w.Exchanging?) && w.attempt > 1
    ensures var w, s' := s.workers[a.w], Step(s, a);
            && s'.idle == s.idle
            && (w.Exchanging? ==> !w.reused && s'.shut == s.shut + [w.conn.id])
  {
    hide Reads, Drawn;
  }

  lemma ComesFrom(parse: Parser, s: State, a: Action, w: nat)
    requires Enabled(parse, s, a) && w < |s.workers|
    ensures var before, after := s.workers[w], Step(s, a).workers[w];
            after.Exchanging? && !after.reused ==>
              if a.w == w then a.Open? && after.conn.id == s.made else before == after
  {
    hide Reads, Drawn;
  }

  /** Over every run, a connection in use that is not out of the pool was opened in this very
      call. */
  lemma {:induction false} OpenedInCall(parse: Parser, n: nat, states: seq<State>, actions: seq<Action>, w: nat,
                                        i: nat, j: nat)
    returns (m: nat)
    requires IsRun(parse, n, states, actions) && w < n && i < j < |states| && Calls(actions[i], w)
    requires |states[j].workers| == n && states[j].workers[w].Exchanging? && !states[j].workers[w].reused
    ensures i < m < j && actions[m].w == w && actions[m].Open? && states[m].made == states[j].workers[w].conn.id
    decreases j
  {
    hide Enabled, Step;
    AlwaysInBudget(parse, n, states, actions, w, j - 1);
    ComesFrom(parse, states[j - 1], actions[j - 1], w);
    if actions[j - 1].w == w {
      m := j - 1;
    } else {
      m := OpenedInCall(parse, n, states, actions, w, i, j - 1);
    }
  }

  /** So an exchange that breaks reaches the caller only on a connection the call opened
      itself: on one out of the pool it only starts over. */
  lemma BreakSurfacesOnFresh(parse: Parser, n: nat, states: seq<State>, actions: seq<Action>, w: nat, i: nat, j: nat)
    returns (m: nat)
    requires IsRun(parse, n, states, actions) && w < n && i < j < |actions| && Calls(actions[i], w)
    requires forall k :: i < k < j ==> !Calls(actions[k], w)
    requires actions[j] == Break(w) && |states[j + 1].workers| == n && !states[j + 1].workers[w].Starting?
    ensures i < m < j && actions[m].w == w && actions[m].Open?
    ensures states[j].workers[w].Exchanging? && states[m].made == states[j].workers[w].conn.id
  {
    AlwaysInBudget(parse, n, states, actions, w, j);
    assert !states[j].workers[w].reused;
    m := OpenedInCall(parse, n, states, actions, w, i, j);
  }

  // ---- every fetch ends ----------------------------------------------------

  /** The steps a fetch may still take. */
  function StepsLeft(w: Worker): nat {
    match w
    case Away => 0
    case Starting(_, allowReuse) => if allowReuse then 11 else 9
    case Exchanging(_, attempt, _, reused) => if reused then 10 else if attempt <= 3 then 3 * (3 - attempt) + 1 else 1
    case Opening(_, attempt) => if attempt <= 3 then 3 * (3 - attempt) + 2 else 2
    case Waiting(_, attempt) => if attempt <= 3 then 3 * (3 - attempt) + 3 else 3
  }

  /** A worker on a fetch can always go on, and each step but the first brings it nearer the end:
      from the pool if there is a connection of its authority there, and otherwise over a new
      one. */
  lemma FetchMovesOn(parse: Parser, s: State, a: Action)
    requires Enabled(parse, s, a) && InBudget(s.workers[a.w])
    ensures var before, after := s.workers[a.w], Step(s, a).workers[a.w];
            && (before.Away? <==> a.Begin?)
            && (a.Begin? ==> after == Starting(a.authority, true))
            && (!a.Begin? ==> StepsLeft(after) < StepsLeft(before))
            && (!a.Begin? && !after.Away? ==> after.authority == before.authority)
            && (a.TakeIdle? ==>
                  (after.Exchanging?
                   <==> before.allowReuse && exists k :: 0 <= k < |s.idle| && s.idle[k].authority == before.authority))
            && (a.TakeIdle? && after.Exchanging? ==> Idle(before.authority, after.conn) in s.idle)
            && (after.Exchanging? && a.Open? ==> after.conn == Connection(s.made, before.authority, a.stream, 0, 0))
  {
    hide Reads;
  }

  /** The steps one worker takes in a stretch of a run. */
  function StepsOf(actions: seq<Action>, w: nat, i: nat, j: nat): nat
    requires i <= j <= |actions|
  {
    if i == j then 0 else StepsOf(actions, w, i, j - 1) + if actions[j - 1].w == w then 1 else 0
  }

  lemma {:induction false} StepsAreSpent(parse: Parser, n: nat, states: seq<State>, actions: seq<Action>, w: nat,
                                         i: nat, j: nat)
    requires IsRun(parse, n, states, actions) && w < n && i <= j < |states|
    requires forall k :: i <= k < j ==> !(actions[k].w == w && actions[k].Begin?)
    ensures |states[i].workers| == |states[j].workers| == n
    ensures StepsOf(actions, w, i, j) + StepsLeft(states[j].workers[w]) <= StepsLeft(states[i].workers[w])
    decreases j
  {
    hide Enabled, Step, StepsLeft, InBudget;
    AlwaysInBudget(parse, n, states, actions, w, i);
    if i < j {
      StepsAreSpent(parse, n, states, actions, w, i, j - 1);
      AlwaysInBudget(parse, n, states, actions, w, j - 1);
      OneWorkerMoves(parse, states[j - 1], actions[j - 1]);
      if actions[j - 1].w == w {
        FetchMovesOn(parse, states[j - 1], actions[j - 1]);
      }
    }
  }

  /** Over every run, a fetch takes at most eleven steps, and until it has ended some step of it
      can be taken. */
  lemma EveryFetchEnds(parse: Parser, n: nat, states: seq<State>, actions: seq<Action>, w: nat, i: nat, j: nat)
    requires IsRun(parse, n, states, actions) && w < n && i < j < |states| && actions[i].w == w && actions[i].Begin?
    requires forall k :: i < k < j ==> !(actions[k].w == w && actions[k].Begin?)
    ensures StepsOf(actions, w, i + 1, j) <= 11 && |states[j].workers| == n
    ensures !states[j].workers[w].Away? ==> exists a: Action :: a.w == w && Enabled(parse, states[j], a)
  {
    hide Step, StepsLeft, InBudget, Reads;
    AlwaysInBudget(parse, n, states, actions, w, i);
    FetchMovesOn(parse, states[i], actions[i]);
    StepsAreSpent(parse, n, states, actions, w, i + 1, j);
    StartsWithEleven(actions[i].authority);
    var s := states[j];
    match s.workers[w]
    case Away =>
    case Starting(_, _) => assert Enabled(parse, s, TakeIdle(w));
    case Opening(_, _) => assert Enabled(parse, s, CannotOpen(w));
    case Exchanging(_, _, _, _) => assert Enabled(parse, s, Break(w));
    case Waiting(_, _) => assert Enabled(parse, s, Retry(w));
  }

  lemma StartsWithEleven(authority: nat)
    ensures StepsLeft(Starting(authority, true)) == 11
  {
  }

  // ---- how a fetch ends ----------------------------------------------------

  /** The attempts begun in the fetch one worker is on, before step `k`. */
  function Attempts(actions: seq<Action>, w: nat, k: nat): nat
    requires k <= |actions|
  {
    if k == 0 then 0
    else if actions[k - 1].w != w then Attempts(actions, w, k - 1)
    else if actions[k - 1].Begin? then 1
    else Attempts(actions, w, k - 1) + if actions[k - 1].Retry? then 1 else 0
  }

  predicate AtAttempt(w: Worker, attempts: nat) {
    match w
    case Away => true
    case Starting(_, _) => attempts == 1
    case Opening(_, k) => attempts == k
    case Exchanging(_, k, _, _) => attempts == k
    case Waiting(_, k) => attempts + 1 == k
  }

  lemma AttemptMoves(parse: Parser, s: State, a: Action, w: nat, attempts: nat)
    requires Enabled(parse, s, a) && w < |s.workers| && InBudget(s.workers[w]) && AtAttempt(s.workers[w], attempts)
    ensures AtAttempt(Step(s, a).workers[w],
                      if a.w != w then attempts else if a.Begin? then 1 else attempts + if a.Retry? then 1 else 0)
  {
    hide Reads, Drawn;
  }

  lemma {:induction false} AttemptsCount(parse: Parser, n: nat, states: seq<State>, actions: seq<Action>, w: nat,
                                         k: nat)
    requires IsRun(parse, n, states, actions) && w < n && k < |states|
    ensures |states[k].workers| == n && AtAttempt(states[k].workers[w], Attempts(actions, w, k))
    decreases k
  {
    hide Enabled, Step, AtAttempt, InBudget;
    AlwaysInBudget(parse, n, states, actions, w, k);
    if k == 0 {
      AwayAttempts();
    } else {
      AlwaysInBudget(parse, n, states, actions, w, k - 1);
      AttemptsCount(parse, n, states, actions, w, k - 1);
      AttemptMoves(parse, states[k - 1], actions[k - 1], w, Attempts(actions, w, k - 1));
    }
  }

  lemma AwayAttempts()
    ensures AtAttempt(Away, 0)
  {
  }

  /** The attempt has failed: no connection, one that broke and was not out of the pool, or an
      answer of a server error or a redirect. */
  predicate AttemptFails(w: Worker, a: Action) {
    match a
    case CannotOpen(_) => true
    case Break(_) => w.Exchanging? && !w.reused
    case Answer(_, _, response) => response.status / 100 == 3 || response.status / 100 == 5
    case _ => false
  }

  /** What a fetch comes to with an answer that does not earn another attempt, or the last
      attempt failed. */
  function ComesTo(a: Action): Result {
    if a.Answer? && (a.response.status == 200 || a.response.status == 206) then Fetched(a.response.body)
    else if a.Answer? && a.response.status == 403 then UrlRejected
    else Failed
  }

  /** Over every run, exactly when a fetch ends and what it comes to: with an answer that is no
      server error and no redirect, or with a failed third attempt; a failed first or second
      earns another; a break on a connection out of the pool only starts over, on a fresh one. */
  lemma FetchEndsExactly(parse: Parser, n: nat, states: seq<State>, actions: seq<Action>, k: nat)
    requires IsRun(parse, n, states, actions) && k < |actions|
    ensures var w, a := actions[k].w, actions[k];
            && w < |states[k].workers| == |states[k + 1].workers|
            && var before, after, attempts := states[k].workers[w], states[k + 1].workers[w], Attempts(actions, w, k);
            var fails := AttemptFails(before, a);
            var ends := (a.Answer? && !fails) || (fails && attempts >= DOWNLOAD_ATTEMPTS);
            && (after.Away? <==> ends)
            && states[k + 1].ended == states[k].ended + (if ends then [(w, ComesTo(a))] else [])
            && (fails && !ends ==> after == Waiting(before.authority, attempts + 1))
            && (a.Break? && !fails ==> after == Starting(before.authority, false))
  {
    var s, a := states[k], actions[k];
    OneWorkerMoves(parse, s, a);
    RunWidth(parse, n, states, actions, k);
    AttemptsCount(parse, n, states, actions, a.w, k);
    hide Reads, Drawn, Attempts;
    assert Enabled(parse, s, a) && states[k + 1] == Step(s, a);
  }

  lemma {:induction false} RunWidth(parse: Parser, n: nat, states: seq<State>, actions: seq<Action>, k: nat)
    requires IsRun(parse, n, states, actions) && k < |states|
    ensures |states[k].workers| == n
    decreases k
  {
    hide Enabled, Step;
    if k > 0 {
      RunWidth(parse, n, states, actions, k - 1);
      OneWorkerMoves(parse, states[k - 1], actions[k - 1]);
    }
  }
}
