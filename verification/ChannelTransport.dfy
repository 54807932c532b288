/** The file-drop request/response protocol (channel/src/transport.rs): one client, one
    server, and a folder that anybody may write to and delete from. */
module ChannelTransport {
  import opened Hashing
  import opened ChannelAuth

  type Body = seq<byte>

  datatype Direction = Request | Response

  /** A file's contents. AES-GCM is ideal: a frame is either one that was sealed, with the
      direction key, the data, the nonce and the body it was sealed with, or bytes that
      open under nothing. */
  datatype Frame = Sealed(dir: Direction, aad: seq<byte>, nonce: Nonce, body: Body) | Junk(bytes: seq<byte>)

  datatype Name = Req(id: Id) | Resp(id: Id)

  type Folder = map<Name, Frame>

  function OpenRequest(channel: Id, req: Id, f: Frame): Option<Body> {
    if f.Sealed? && f.dir == Request && f.aad == RequestAad(channel, req) then Some(f.body) else None
  }

  function OpenResponse(channel: Id, req: Id, nonce: Nonce, f: Frame): Option<Body> {
    if f.Sealed? && f.dir == Response && f.aad == ResponseAad(channel, req, nonce) then Some(f.body) else None
  }

  function SealRequest(channel: Id, req: Id, nonce: Nonce, body: Body): Frame {
    Sealed(Request, RequestAad(channel, req), nonce, body)
  }

  function SealResponse(channel: Id, req: Id, requestNonce: Nonce, nonce: Nonce, body: Body): Frame {
    Sealed(Response, ResponseAad(channel, req, requestNonce), nonce, body)
  }

  // ---- the protocol as a state machine -------------------------------------

  /** An op the client sealed, and for which channel and request. */
  datatype Sent = Sent(channel: Id, req: Id, nonce: Nonce, op: Body)

  /** One run of the server's handler. */
  datatype Run = Run(req: Id, nonce: Nonce, op: Body, answer: Body)

  /** A response the client returned to its caller, for the op it had sent. */
  datatype Returned = Returned(sent: Sent, answer: Body)

  /** Where the server is with the request file in hand: what it has read may be gone from the
      folder, or replaced, by the time it answers and removes it. */
  datatype Server =
    | Free
    | Holding(req: Id, frame: Frame)
    | Answering(req: Id, response: Option<Frame>)
    | Clearing(req: Id)

  datatype State = State(
    folder: Folder,
    server: Server,
    sealed: set<Frame>,
    drawn: set<Nonce>,
    sent: seq<Sent>,
    accepted: seq<Nonce>,
    runs: seq<Run>,
    returned: seq<Returned>)

  const INITIAL := State(map[], Free, {}, {}, [], [], [], [])

  /** The server picks a file up, processes what it read, writes the response and removes the
      request, each of the last two perhaps in vain. What the client removes after a response
      or a timeout is deleted like anything else. */
  datatype Event =
    | Send(sent: Sent)
    | Pick(req: Id)
    | Process(answer: Body, nonce: Nonce)
    | Write(ok: bool)
    | Clear(ok: bool)
    | Await(sent: Sent)
    | Put(name: Name, frame: Frame)
    | Delete(name: Name)

  function PickUp(s: State, req: Id): State
    requires Req(req) in s.folder
  {
    s.(server := Holding(req, s.folder[Req(req)]))
  }

  /** What the server makes of the frame it holds: authenticate, check for a replay, run the
      handler, seal its answer. */
  function Handle(s: State, channel: Id, capacity: nat, answer: Body, nonce: Nonce): State
    requires s.server.Holding?
  {
    var req, frame := s.server.req, s.server.frame;
    var body := OpenRequest(channel, req, frame);
    if body.None? || frame.nonce in Window(s.accepted, capacity) then
      s.(server := Answering(req, None))
    else
      var response := SealResponse(channel, req, frame.nonce, nonce, answer);
      s.(server := Answering(req, Some(response)),
         sealed := s.sealed + {response},
         drawn := s.drawn + {nonce},
         accepted := s.accepted + [frame.nonce],
         runs := s.runs + [Run(req, frame.nonce, body.value, answer)])
  }

  function WriteOut(s: State, ok: bool): State
    requires s.server.Answering?
  {
    var req, response := s.server.req, s.server.response;
    s.(server := Clearing(req),
       folder := if response.Some? && ok then s.folder[Resp(req) := response.value] else s.folder)
  }

  function ClearAway(s: State, ok: bool): State
    requires s.server.Clearing?
  {
    s.(server := Free, folder := if ok then s.folder - {Req(s.server.req)} else s.folder)
  }

  /** `channel` is the server's; the client may use the same secret for others. */
  ghost predicate Next(s: State, e: Event, s': State, channel: Id, capacity: nat) {
    match e
    case Send(x) =>
      && Short(x.channel) && Short(x.req) && x.nonce !in s.drawn
      && var frame := SealRequest(x.channel, x.req, x.nonce, x.op);
         s' == s.(folder := s.folder[Req(x.req) := frame],
                  sealed := s.sealed + {frame},
                  drawn := s.drawn + {x.nonce},
                  sent := s.sent + [x])
    case Pick(req) => s.server.Free? && Short(req) && Req(req) in s.folder && s' == PickUp(s, req)
    case Process(answer, nonce) =>
      s.server.Holding? && nonce !in s.drawn && s' == Handle(s, channel, capacity, answer, nonce)
    case Write(ok) => s.server.Answering? && s' == WriteOut(s, ok)
    case Clear(ok) => s.server.Clearing? && s' == ClearAway(s, ok)
    case Await(x) =>
      && x in s.sent && Resp(x.req) in s.folder
      && var body := OpenResponse(x.channel, x.req, x.nonce, s.folder[Resp(x.req)]);
         body.Some? && s' == s.(returned := s.returned + [Returned(x, body.value)])
    // Anyone may write what they have seen, or anything that opens under nothing.
    case Put(name, frame) =>
      (frame.Junk? || frame in s.sealed) && s' == s.(folder := s.folder[name := frame])
    case Delete(name) =>
      s' == s.(folder := s.folder - {name})
  }

  ghost predicate IsRun(states: seq<State>, events: seq<Event>, channel: Id, capacity: nat) {
    && |states| == |events| + 1
    && states[0] == INITIAL
    && forall i :: 0 <= i < |events| ==> Next(states[i], events[i], states[i + 1], channel, capacity)
  }

  // ---- what every run keeps ------------------------------------------------

  ghost predicate SealedBySomeone(s: State, channel: Id) {
    && (forall f :: f in s.sealed ==> f.Sealed? && f.nonce in s.drawn)
    && (forall f :: f in s.sealed && f.dir == Request ==>
          exists i :: 0 <= i < |s.sent|
              && f == SealRequest(s.sent[i].channel, s.sent[i].req, s.sent[i].nonce, s.sent[i].op))
    && (forall f :: f in s.sealed && f.dir == Response ==>
          exists i :: 0 <= i < |s.runs| &&
            f == SealResponse(channel, s.runs[i].req, s.runs[i].nonce, f.nonce, s.runs[i].answer))
    && (forall x :: x in s.sent ==> Short(x.channel) && Short(x.req) && x.nonce in s.drawn)
    && (forall r :: r in s.runs ==> Short(r.req))
    && (forall n :: n in s.folder ==> s.folder[n].Junk? || s.folder[n] in s.sealed)
    && (s.server.Holding? ==> Short(s.server.req) && (s.server.frame.Junk? || s.server.frame in s.sealed))
    && (s.server.Answering? && s.server.response.Some? ==> s.server.response.value in s.sealed)
    && (forall i, j :: 0 <= i < j < |s.sent| ==> s.sent[i].nonce != s.sent[j].nonce)
  }

  /** The handler runs only on what the client sealed for this channel and this request. */
  ghost predicate RunsWereSent(s: State, channel: Id) {
    forall r :: r in s.runs ==> Sent(channel, r.req, r.nonce, r.op) in s.sent
  }

  /** The accepted nonces are the handler runs', and repeats are a window apart. */
  ghost predicate RunsAreSpaced(s: State, capacity: nat) {
    && |s.accepted| == |s.runs|
    && (forall i :: 0 <= i < |s.runs| ==> s.runs[i].nonce == s.accepted[i])
    && Spaced(s.accepted, capacity)
    && (forall n :: n in s.accepted ==> n in s.drawn)
  }

  /** What the client returns is a handler's answer to the op it sent. */
  ghost predicate ReturnedWereAnswered(s: State, channel: Id) {
    forall x :: x in s.returned ==>
      && x.sent in s.sent && x.sent.channel == channel
      && Run(x.sent.req, x.sent.nonce, x.sent.op, x.answer) in s.runs
  }

  ghost predicate Inv(s: State, channel: Id, capacity: nat) {
    && SealedBySomeone(s, channel)
    && RunsWereSent(s, channel)
    && RunsAreSpaced(s, capacity)
    && ReturnedWereAnswered(s, channel)
  }

  /** A request frame that opens holds an op the client sealed for this very request. */
  lemma OpenedWasSent(s: State, channel: Id, req: Id, f: Frame)
    requires SealedBySomeone(s, channel) && Short(channel) && Short(req) && (f.Junk? || f in s.sealed)
    requires OpenRequest(channel, req, f).Some?
    ensures Sent(channel, req, f.nonce, f.body) in s.sent
  {
    var i :| 0 <= i < |s.sent| && f == SealRequest(s.sent[i].channel, s.sent[i].req, s.sent[i].nonce, s.sent[i].op);
    var x := s.sent[i];
    assert x in s.sent;
    RequestAadBinds(x.channel, x.req, channel, req);
    assert x == Sent(channel, req, f.nonce, f.body);
  }

  /** A response that opens was sealed by a handler run on the op it is opened for. */
  lemma OpenedWasAnswered(s: State, channel: Id, x: Sent)
    requires SealedBySomeone(s, channel) && RunsWereSent(s, channel) && Short(channel)
    requires x in s.sent && Resp(x.req) in s.folder
    requires OpenResponse(x.channel, x.req, x.nonce, s.folder[Resp(x.req)]).Some?
    ensures x.channel == channel
    ensures Run(x.req, x.nonce, x.op, s.folder[Resp(x.req)].body) in s.runs
  {
    var f := s.folder[Resp(x.req)];
    var i :| 0 <= i < |s.runs| && f == SealResponse(channel, s.runs[i].req, s.runs[i].nonce, f.nonce, s.runs[i].answer);
    var r := s.runs[i];
    assert r in s.runs;
    ResponseAadBinds(channel, r.req, r.nonce, x.channel, x.req, x.nonce);
    NonceNamesOp(s, channel, x, Sent(channel, r.req, r.nonce, r.op));
    assert r == Run(x.req, x.nonce, x.op, f.body);
  }

  lemma NonceNamesOp(s: State, channel: Id, x: Sent, y: Sent)
    requires SealedBySomeone(s, channel) && x in s.sent && y in s.sent && x.nonce == y.nonce
    ensures x == y
  {
  }

  lemma SendKeeps(s: State, x: Sent, s': State, channel: Id, capacity: nat)
    requires Inv(s, channel, capacity) && Next(s, Send(x), s', channel, capacity)
    ensures Inv(s', channel, capacity)
  {
    hide RequestAad, ResponseAad, Spaced;
    var frame := SealRequest(x.channel, x.req, x.nonce, x.op);
    var n := |s.sent|;
    assert s'.sent[n] == x;
    forall f | f in s'.sealed && f.dir == Request
      ensures exists i ::
          0 <= i < |s'.sent| && f == SealRequest(s'.sent[i].channel, s'.sent[i].req, s'.sent[i].nonce, s'.sent[i].op)
    {
      if f == frame {
        assert f == SealRequest(s'.sent[n].channel, s'.sent[n].req, s'.sent[n].nonce, s'.sent[n].op);
      } else {
        var i :| 0 <= i < |s.sent| && f == SealRequest(s.sent[i].channel, s.sent[i].req, s.sent[i].nonce, s.sent[i].op);
        assert s'.sent[i] == s.sent[i];
      }
    }
    forall i, j | 0 <= i < j < |s'.sent| ensures s'.sent[i].nonce != s'.sent[j].nonce {
      if j == n {
        assert s.sent[i] in s.sent;
      }
    }
  }

  lemma ProcessKeeps(s: State, answer: Body, nonce: Nonce, s': State, channel: Id, capacity: nat)
    requires Inv(s, channel, capacity) && Short(channel)
    requires Next(s, Process(answer, nonce), s', channel, capacity)
    ensures Inv(s', channel, capacity)
  {
    hide RequestAad, ResponseAad, Spaced, Window;
    var req, frame := s.server.req, s.server.frame;
    if OpenRequest(channel, req, frame).Some? && frame.nonce !in Window(s.accepted, capacity) {
      OpenedWasSent(s, channel, req, frame);
      AcceptKeepsSpacing(s.accepted, capacity, frame.nonce);
      ResponseIsSealed(s, answer, nonce, s', channel, capacity);
    }
  }

  lemma ResponseIsSealed(s: State, answer: Body, nonce: Nonce, s': State, channel: Id, capacity: nat)
    requires SealedBySomeone(s, channel) && Short(channel)
    requires Next(s, Process(answer, nonce), s', channel, capacity)
    requires OpenRequest(channel, s.server.req, s.server.frame).Some?
    requires s.server.frame.nonce !in Window(s.accepted, capacity)
    ensures SealedBySomeone(s', channel)
  {
    hide RequestAad, ResponseAad, Spaced, Window;
    var req, frame := s.server.req, s.server.frame;
    var response, n := SealResponse(channel, req, frame.nonce, nonce, answer), |s.runs|;
    assert s'.runs[n] == Run(req, frame.nonce, frame.body, answer);
    forall f | f in s'.sealed && f.dir == Response
      ensures exists i ::
          0 <= i < |s'.runs| && f == SealResponse(channel, s'.runs[i].req, s'.runs[i].nonce, f.nonce, s'.runs[i].answer)
    {
      if f == response {
        assert f == SealResponse(channel, s'.runs[n].req, s'.runs[n].nonce, f.nonce, s'.runs[n].answer);
      } else {
        var i :| 0 <= i < |s.runs|
            && f == SealResponse(channel, s.runs[i].req, s.runs[i].nonce, f.nonce, s.runs[i].answer);
        assert s'.runs[i] == s.runs[i];
      }
    }
  }

  lemma AwaitKeeps(s: State, x: Sent, s': State, channel: Id, capacity: nat)
    requires Inv(s, channel, capacity) && Short(channel) && Next(s, Await(x), s', channel, capacity)
    ensures Inv(s', channel, capacity)
  {
    hide RequestAad, ResponseAad, Spaced;
    OpenedWasAnswered(s, channel, x);
  }

  lemma StepKeeps(s: State, e: Event, s': State, channel: Id, capacity: nat)
    requires Inv(s, channel, capacity) && Short(channel) && Next(s, e, s', channel, capacity)
    ensures Inv(s', channel, capacity)
  {
    hide RequestAad, ResponseAad, Spaced;
    match e
    case Send(x) => SendKeeps(s, x, s', channel, capacity);
    case Pick(req) =>
    case Process(answer, nonce) => ProcessKeeps(s, answer, nonce, s', channel, capacity);
    case Write(ok) =>
    case Clear(ok) =>
    case Await(x) => AwaitKeeps(s, x, s', channel, capacity);
    case Put(name, frame) =>
    case Delete(name) =>
  }

  /** In every run, whatever others write and delete: the handler runs only on ops the client
      sealed for this channel and request; repeats of a nonce are more than `capacity`
      acceptances apart; and every response returned answers the op it was returned for. */
  lemma {:induction false} ChannelIsSafe(states: seq<State>, events: seq<Event>, channel: Id, capacity: nat, k: nat)
    requires IsRun(states, events, channel, capacity) && Short(channel) && k < |states|
    ensures Inv(states[k], channel, capacity)
    decreases k
  {
    if k > 0 {
      ChannelIsSafe(states, events, channel, capacity, k - 1);
      StepKeeps(states[k - 1], events[k - 1], states[k], channel, capacity);
    }
  }

  /** The guarantee on repeats, counted in handler runs. */
  lemma RepeatsAreFarApart(states: seq<State>, events: seq<Event>, channel: Id, capacity: nat, k: nat, i: nat, j: nat)
    requires IsRun(states, events, channel, capacity) && Short(channel) && k < |states|
    requires i < j < |states[k].runs| && states[k].runs[i].nonce == states[k].runs[j].nonce
    ensures j - i - 1 >= capacity
  {
    ChannelIsSafe(states, events, channel, capacity, k);
  }

  /** Left alone, a request is answered: whatever happened before, with the server free, these
      steps from sending to the client's clean-up return the handler's answer and leave
      neither file behind. */
  lemma UndisturbedRequestIsAnswered(s: State, x: Sent, answer: Body, nonce: Nonce, channel: Id, capacity: nat)
      returns (states: seq<State>, events: seq<Event>)
    requires Inv(s, channel, capacity) && Short(channel) && x.channel == channel && Short(x.req) && s.server.Free?
    requires x.nonce !in s.drawn && nonce !in s.drawn && nonce != x.nonce
    ensures events == [Send(x), Pick(x.req), Process(answer, nonce), Write(true), Clear(true), Await(x),
                       Delete(Resp(x.req)), Delete(Req(x.req))]
    ensures |states| == 9 && states[0] == s
    ensures forall i :: 0 <= i < 8 ==> Next(states[i], events[i], states[i + 1], channel, capacity)
    ensures states[8].returned == s.returned + [Returned(x, answer)]
    ensures states[8].runs == s.runs + [Run(x.req, x.nonce, x.op, answer)]
    ensures states[8].folder == s.folder - {Req(x.req), Resp(x.req)}
  {
    hide RequestAad, ResponseAad, Spaced, Window;
    var frame := SealRequest(x.channel, x.req, x.nonce, x.op);
    var s1 := s.(folder := s.folder[Req(x.req) := frame], sealed := s.sealed + {frame},
                 drawn := s.drawn + {x.nonce}, sent := s.sent + [x]);
    NewNonceIsOutside(s, x.nonce, channel, capacity);
    var s2 := PickUp(s1, x.req);
    var s3 := Handle(s2, channel, capacity, answer, nonce);
    var s4 := WriteOut(s3, true);
    var s5 := ClearAway(s4, true);
    assert s5.sent[|s.sent|] == x;
    var s6 := s5.(returned := s5.returned + [Returned(x, answer)]);
    var s7 := s6.(folder := s6.folder - {Resp(x.req)});
    var s8 := s7.(folder := s7.folder - {Req(x.req)});
    assert s8.folder == s.folder - {Req(x.req), Resp(x.req)};
    states := [s, s1, s2, s3, s4, s5, s6, s7, s8];
    events := [Send(x), Pick(x.req), Process(answer, nonce), Write(true), Clear(true), Await(x),
               Delete(Resp(x.req)), Delete(Req(x.req))];
  }

  lemma NewNonceIsOutside(s: State, nonce: Nonce, channel: Id, capacity: nat)
    requires Inv(s, channel, capacity) && nonce !in s.drawn
    ensures nonce !in Window(s.accepted, capacity)
  {
    hide RequestAad, ResponseAad, Spaced;
    assert forall n :: n in Window(s.accepted, capacity) ==> n in s.accepted;
  }

  // ---- one pass of the server ----------------------------------------------

  type Handler = Body -> Body

  /** The server's handling of one listed file, undisturbed; a file that has vanished is
      skipped. */
  function HandleListed(s: State, channel: Id, capacity: nat, req: Id, handler: Handler, nonce: Nonce): State {
    if Req(req) !in s.folder then
      s
    else
      var body := OpenRequest(channel, req, s.folder[Req(req)]);
      var answer := if body.Some? then handler(body.value) else [];
      ClearAway(WriteOut(Handle(PickUp(s, req), channel, capacity, answer, nonce), true), true)
  }

  /** A whole pass over a directory listing, drawing one nonce a response. */
  function Pass(s: State, channel: Id, capacity: nat, listing: seq<Id>, handler: Handler, draws: seq<Nonce>): State
    requires |draws| == |listing|
    decreases |listing|
  {
    if listing == [] then
      s
    else
      Pass(HandleListed(s, channel, capacity, listing[0], handler, draws[0]), channel, capacity, listing[1..], handler,
           draws[1..])
  }

  /** A pass is a stretch of protocol steps, so it keeps what every step keeps. */
  lemma {:induction false} PassKeeps(s: State, channel: Id, capacity: nat, listing: seq<Id>, handler: Handler,
                                     draws: seq<Nonce>)
    requires Inv(s, channel, capacity) && Short(channel) && |draws| == |listing| && s.server.Free?
    requires forall i :: 0 <= i < |listing| ==> Short(listing[i]) && draws[i] !in s.drawn
    requires forall i, j :: 0 <= i < j < |draws| ==> draws[i] != draws[j]
    ensures Inv(Pass(s, channel, capacity, listing, handler, draws), channel, capacity)
    decreases |listing|
  {
    hide Inv, RequestAad, ResponseAad, Window;
    if listing != [] {
      var req := listing[0];
      var s1 := HandleListed(s, channel, capacity, req, handler, draws[0]);
      if Req(req) in s.folder {
        var body := OpenRequest(channel, req, s.folder[Req(req)]);
        var answer := if body.Some? then handler(body.value) else [];
        var held := PickUp(s, req);
        var decided := Handle(held, channel, capacity, answer, draws[0]);
        var written := WriteOut(decided, true);
        StepKeeps(s, Pick(req), held, channel, capacity);
        StepKeeps(held, Process(answer, draws[0]), decided, channel, capacity);
        StepKeeps(decided, Write(true), written, channel, capacity);
        StepKeeps(written, Clear(true), s1, channel, capacity);
      }
      PassKeeps(s1, channel, capacity, listing[1..], handler, draws[1..]);
    }
  }

  // ---- what a pass answers -------------------------------------------------

  /** How many of the answered positions lie before this one. */
  function AnsweredBefore(at: seq<nat>, k: nat): (n: nat)
    ensures n <= |at|
  {
    if at == [] then 0
    else if at[|at| - 1] < k then |at|
    else AnsweredBefore(at[..|at| - 1], k)
  }

  /** The request file opens to an op, with a nonce that has not been accepted lately. */
  predicate Answerable(folder: Folder, channel: Id, capacity: nat, req: Id, accepted: seq<Nonce>) {
    && Req(req) in folder && OpenRequest(channel, req, folder[Req(req)]).Some?
    && folder[Req(req)].nonce !in Window(accepted, capacity)
  }

  /** The handler ran on the op in the request file, and its answer is in the response file. */
  predicate Answered(folder: Folder, folder': Folder, channel: Id, req: Id, handler: Handler, run: Run) {
    && Req(req) in folder && OpenRequest(channel, req, folder[Req(req)]) == Some(run.op)
    && run == Run(req, folder[Req(req)].nonce, run.op, handler(run.op))
    && Resp(req) in folder' && OpenResponse(channel, req, run.nonce, folder'[Resp(req)]) == Some(handler(run.op))
  }

  /** The `i`th run of the pass is of the file at this position, on its op, with the handler's
      answer sealed for its nonce. */
  ghost predicate RunOf(s: State, s': State, channel: Id, listing: seq<Id>, handler: Handler, position: nat, i: nat) {
    && position < |listing| && |s.runs| + i < |s'.runs| && |s.accepted| + i < |s'.accepted|
    && s'.accepted[|s.accepted| + i] == s'.runs[|s.runs| + i].nonce
    && Answered(s.folder, s'.folder, channel, listing[position], handler, s'.runs[|s.runs| + i])
  }

  /** The runs of a pass are of listed files, in order. */
  ghost predicate RunsOf(s: State, s': State, channel: Id, listing: seq<Id>, handler: Handler, at: seq<nat>) {
    && |s'.runs| == |s.runs| + |at| && s.runs <= s'.runs
    && |s'.accepted| == |s.accepted| + |at| && s.accepted <= s'.accepted
    && (forall i, j :: 0 <= i < j < |at| ==> at[i] < at[j])
    && (forall i :: 0 <= i < |at| ==> RunOf(s, s', channel, listing, handler, at[i], i))
  }

  /** A listed file is answered exactly when it opens with a nonce not accepted lately, the
      acceptances of the pass so far included. */
  ghost predicate Decided(folder: Folder, channel: Id, capacity: nat, req: Id, before: nat, accepted: seq<Nonce>,
                          at: seq<nat>, k: nat) {
    && before + AnsweredBefore(at, k) <= |accepted|
    && (k in at <==> Answerable(folder, channel, capacity, req, accepted[..before + AnsweredBefore(at, k)]))
  }

  ghost predicate AnswersExactly(folder: Folder, channel: Id, capacity: nat, listing: seq<Id>, before: nat,
                                 accepted: seq<Nonce>, at: seq<nat>) {
    && |accepted| == before + |at|
    && forall k: nat :: k < |listing| ==> Decided(folder, channel, capacity, listing[k], before, accepted, at, k)
  }

  /** The listed request files are gone, and every file but the responses is as it was. */
  ghost predicate FilesAfter(folder: Folder, folder': Folder, listing: seq<Id>, at: seq<nat>) {
    && (forall i :: 0 <= i < |at| ==> at[i] < |listing|)
    && (forall id :: Req(id) in folder' <==> Req(id) in folder && id !in listing)
    && (forall id :: Req(id) in folder' ==> folder'[Req(id)] == folder[Req(id)])
    && (forall id :: (forall i :: 0 <= i < |at| ==> listing[at[i]] != id) ==> SameResponse(folder, folder', id))
  }

  /** A pass over these request files, answering those at these positions. */
  ghost predicate Passed(s: State, s': State, channel: Id, capacity: nat, listing: seq<Id>, handler: Handler,
                         at: seq<nat>) {
    && RunsOf(s, s', channel, listing, handler, at)
    && AnswersExactly(s.folder, channel, capacity, listing, |s.accepted|, s'.accepted, at)
    && FilesAfter(s.folder, s'.folder, listing, at)
  }

  predicate SameResponse(folder: Folder, folder': Folder, id: Id) {
    && (Resp(id) in folder' <==> Resp(id) in folder)
    && (Resp(id) in folder ==> folder'[Resp(id)] == folder[Resp(id)])
  }

  /** A directory listing names each file once. */
  ghost predicate Distinct(listing: seq<Id>) {
    forall i, j :: 0 <= i < j < |listing| ==> listing[i] != listing[j]
  }

  lemma NotBefore(listing: seq<Id>, i: nat)
    requires Distinct(listing) && i < |listing|
    ensures listing[i] !in listing[..i]
  {
  }

  lemma NothingPassed(s: State, channel: Id, capacity: nat, handler: Handler)
    ensures Passed(s, s, channel, capacity, [], handler, [])
  {
  }

  lemma ListedMeans(t: State, channel: Id, capacity: nat, req: Id, handler: Handler, nonce: Nonce)
    requires t.server.Free?
    ensures var t' := HandleListed(t, channel, capacity, req, handler, nonce);
            && t'.server.Free?
            && if Answerable(t.folder, channel, capacity, req, t.accepted) then
                 var frame := t.folder[Req(req)];
                 var op := OpenRequest(channel, req, frame).value;
                 && t'.runs == t.runs + [Run(req, frame.nonce, op, handler(op))]
                 && t'.accepted == t.accepted + [frame.nonce]
                 && t'.folder == t.folder[Resp(req) := SealResponse(channel, req, frame.nonce, nonce, handler(op))]
                                 - {Req(req)}
               else t'.runs == t.runs && t'.accepted == t.accepted && t'.folder == t.folder - {Req(req)}
  {
    hide RequestAad, ResponseAad, Window;
  }

  lemma {:induction false} BeforeIsKept(at: seq<nat>, n: nat, k: nat)
    requires k <= n && forall i :: 0 <= i < |at| ==> at[i] < n
    ensures AnsweredBefore(at + [n], k) == AnsweredBefore(at, k) && AnsweredBefore(at, n) == |at|
  {
    assert (at + [n])[..|at|] == at;
  }

  /** The positions answered once one more file is listed. */
  function Also(at: seq<nat>, n: nat, answered: bool): seq<nat> {
    if answered then at + [n] else at
  }

  lemma OneMoreFile(folder: Folder, t: Folder, listing: seq<Id>, at: seq<nat>, req: Id, response: Option<Frame>)
    requires FilesAfter(folder, t, listing, at) && req !in listing
    ensures var t' := if response.Some? then t[Resp(req) := response.value] else t;
            FilesAfter(folder, t' - {Req(req)}, listing + [req], Also(at, |listing|, response.Some?))
  {
    var t' := (if response.Some? then t[Resp(req) := response.value] else t) - {Req(req)};
    var more, longer := Also(at, |listing|, response.Some?), listing + [req];
    assert forall id :: id in longer <==> id in listing || id == req;
    forall id | forall i :: 0 <= i < |more| ==> longer[more[i]] != id ensures SameResponse(folder, t', id) {
      forall i | 0 <= i < |at| ensures listing[at[i]] != id {
        assert longer[more[i]] == listing[at[i]];
      }
      assert SameResponse(folder, t, id);
      assert response.Some? ==> longer[more[|at|]] == req;
    }
  }

  lemma OneMoreDecided(folder: Folder, channel: Id, capacity: nat, listing: seq<Id>, before: nat, accepted: seq<Nonce>,
                       at: seq<nat>, req: Id, answered: bool, accepted': seq<Nonce>)
    requires AnswersExactly(folder, channel, capacity, listing, before, accepted, at)
    requires forall i :: 0 <= i < |at| ==> at[i] < |listing|
    requires answered == Answerable(folder, channel, capacity, req, accepted)
    requires accepted <= accepted' && |accepted'| == |accepted| + (if answered then 1 else 0)
    ensures AnswersExactly(folder, channel, capacity, listing + [req], before, accepted',
                           Also(at, |listing|, answered))
  {
    hide Answerable, AnsweredBefore, Decided, Also;
    AlsoCounts(at, |listing|, answered);
    var more, longer := Also(at, |listing|, answered), listing + [req];
    forall k: nat | k < |longer| ensures Decided(folder, channel, capacity, longer[k], before, accepted', more, k) {
      if k < |listing| {
        var id := listing[k];
        assert longer[k] == id && Decided(folder, channel, capacity, id, before, accepted, at, k);
        StillDecided(folder, channel, capacity, id, before, accepted, accepted', at, |listing|, answered, k);
      } else {
        assert k == |listing| && longer[k] == req;
        LastDecided(folder, channel, capacity, req, before, accepted, accepted', at, |listing|, answered);
      }
    }
  }

  lemma AlsoCounts(at: seq<nat>, n: nat, answered: bool)
    ensures |Also(at, n, answered)| == |at| + if answered then 1 else 0
  {
  }

  lemma StillDecided(folder: Folder, channel: Id, capacity: nat, req: Id, before: nat, accepted: seq<Nonce>,
                     accepted': seq<Nonce>, at: seq<nat>, n: nat, answered: bool, k: nat)
    requires Decided(folder, channel, capacity, req, before, accepted, at, k) && accepted <= accepted' && k < n
    requires forall i :: 0 <= i < |at| ==> at[i] < n
    ensures Decided(folder, channel, capacity, req, before, accepted', Also(at, n, answered), k)
  {
    hide Answerable, AnsweredBefore;
    BeforeIsKept(at, n, k);
    AlsoHolds(at, n, answered, k);
    var m := before + AnsweredBefore(at, k);
    assert accepted'[..m] == accepted[..m];
  }

  lemma LastDecided(folder: Folder, channel: Id, capacity: nat, req: Id, before: nat, accepted: seq<Nonce>,
                    accepted': seq<Nonce>, at: seq<nat>, n: nat, answered: bool)
    requires answered == Answerable(folder, channel, capacity, req, accepted) && accepted <= accepted'
    requires |accepted| == before + |at| && forall i :: 0 <= i < |at| ==> at[i] < n
    ensures Decided(folder, channel, capacity, req, before, accepted', Also(at, n, answered), n)
  {
    hide Answerable, AnsweredBefore;
    BeforeIsKept(at, n, n);
    AlsoHolds(at, n, answered, n);
    assert accepted'[..|accepted|] == accepted;
  }

  lemma SameAnswerable(folder: Folder, t: Folder, channel: Id, capacity: nat, req: Id, accepted: seq<Nonce>)
    requires Req(req) in t <==> Req(req) in folder
    requires Req(req) in t ==> t[Req(req)] == folder[Req(req)]
    ensures Answerable(t, channel, capacity, req, accepted) == Answerable(folder, channel, capacity, req, accepted)
  {
  }

  lemma AlsoHolds(at: seq<nat>, n: nat, answered: bool, k: nat)
    requires forall i :: 0 <= i < |at| ==> at[i] < n
    ensures k in Also(at, n, answered) <==> k in at || (answered && k == n)
    ensures n !in at
  {
  }

  lemma OneMoreRun(s: State, t: State, t': State, channel: Id, listing: seq<Id>, handler: Handler, at: seq<nat>,
                   req: Id, run: Run)
    requires RunsOf(s, t, channel, listing, handler, at) && req !in listing
    requires t'.runs == t.runs + [run] && t'.accepted == t.accepted + [run.nonce]
    requires forall id :: id != req ==> SameResponse(t.folder, t'.folder, id)
    requires Answered(s.folder, t'.folder, channel, req, handler, run)
    ensures RunsOf(s, t', channel, listing + [req], handler, at + [|listing|])
  {
    hide RunOf, Answered, SameResponse;
    var more, longer := at + [|listing|], listing + [req];
    InListing(s, t, channel, listing, handler, at);
    forall i | 0 <= i < |more| ensures RunOf(s, t', channel, longer, handler, more[i], i) {
      if i < |at| {
        assert listing[at[i]] != req;
        StillRunOf(s, t, t', channel, listing, handler, at[i], i, req);
      } else {
        NewRunOf(s, t', channel, longer, handler, |listing|, |at|);
      }
    }
  }

  lemma StillRunOf(s: State, t: State, t': State, channel: Id, listing: seq<Id>, handler: Handler, position: nat,
                   i: nat, req: Id)
    requires RunOf(s, t, channel, listing, handler, position, i) && t.runs <= t'.runs && t.accepted <= t'.accepted
    requires SameResponse(t.folder, t'.folder, listing[position])
    ensures RunOf(s, t', channel, listing + [req], handler, position, i)
  {
    hide Answered, SameResponse;
    StillAnswered(s.folder, t.folder, t'.folder, channel, listing[position], handler, t.runs[|s.runs| + i]);
  }

  lemma NewRunOf(s: State, t': State, channel: Id, listing: seq<Id>, handler: Handler, position: nat, i: nat)
    requires position < |listing| && |s.runs| + i < |t'.runs| && |s.accepted| + i < |t'.accepted|
    requires t'.accepted[|s.accepted| + i] == t'.runs[|s.runs| + i].nonce
    requires Answered(s.folder, t'.folder, channel, listing[position], handler, t'.runs[|s.runs| + i])
    ensures RunOf(s, t', channel, listing, handler, position, i)
  {
    hide Answered;
  }

  lemma SameRuns(s: State, t: State, t': State, channel: Id, listing: seq<Id>, handler: Handler, at: seq<nat>, req: Id)
    requires RunsOf(s, t, channel, listing, handler, at) && t'.runs == t.runs && t'.accepted == t.accepted
    requires forall id :: SameResponse(t.folder, t'.folder, id)
    ensures RunsOf(s, t', channel, listing + [req], handler, at)
  {
    hide RunOf, Answered, SameResponse;
    InListing(s, t, channel, listing, handler, at);
    forall i | 0 <= i < |at| ensures RunOf(s, t', channel, listing + [req], handler, at[i], i) {
      StillRunOf(s, t, t', channel, listing, handler, at[i], i, req);
    }
  }

  lemma StillAnswered(folder: Folder, t: Folder, t': Folder, channel: Id, req: Id, handler: Handler, run: Run)
    requires Answered(folder, t, channel, req, handler, run) && SameResponse(t, t', req)
    ensures Answered(folder, t', channel, req, handler, run)
  {
    hide OpenRequest, OpenResponse;
  }

  lemma OneMoreListed(s: State, t: State, channel: Id, capacity: nat, listing: seq<Id>, handler: Handler, at: seq<nat>,
                      req: Id, nonce: Nonce)
    returns (at': seq<nat>)
    requires Passed(s, t, channel, capacity, listing, handler, at) && req !in listing && t.server.Free?
    ensures Passed(s, HandleListed(t, channel, capacity, req, handler, nonce), channel, capacity, listing + [req],
                   handler, at')
  {
    hide HandleListed, RunsOf, AnswersExactly, FilesAfter, Answerable, Answered, SameResponse;
    SameRequest(s.folder, t.folder, listing, at, req);
    InListing(s, t, channel, listing, handler, at);
    SameAnswerable(s.folder, t.folder, channel, capacity, req, t.accepted);
    var t' := HandleListed(t, channel, capacity, req, handler, nonce);
    var answered := Answerable(t.folder, channel, capacity, req, t.accepted);
    at' := Also(at, |listing|, answered);
    if answered {
      var run, response := RunOfListed(s.folder, t, channel, capacity, req, handler, nonce);
      OneMoreDecided(s.folder, channel, capacity, listing, |s.accepted|, t.accepted, at, req, answered, t'.accepted);
      OneMoreFile(s.folder, t.folder, listing, at, req, Some(response));
      OneMoreRun(s, t, t', channel, listing, handler, at, req, run);
    } else {
      SkipsListed(t, channel, capacity, req, handler, nonce);
      OneMoreDecided(s.folder, channel, capacity, listing, |s.accepted|, t.accepted, at, req, answered, t'.accepted);
      OneMoreFile(s.folder, t.folder, listing, at, req, None);
      SameRuns(s, t, t', channel, listing, handler, at, req);
    }
  }

  lemma RunOfListed(folder: Folder, t: State, channel: Id, capacity: nat, req: Id, handler: Handler, nonce: Nonce)
    returns (run: Run, response: Frame)
    requires t.server.Free? && Answerable(t.folder, channel, capacity, req, t.accepted)
    requires Req(req) in t.folder ==> Req(req) in folder && t.folder[Req(req)] == folder[Req(req)]
    ensures var t' := HandleListed(t, channel, capacity, req, handler, nonce);
            && t'.runs == t.runs + [run] && t'.accepted == t.accepted + [run.nonce]
            && t'.folder == t.folder[Resp(req) := response] - {Req(req)}
            && Answered(folder, t'.folder, channel, req, handler, run)
            && forall id :: id != req ==> SameResponse(t.folder, t'.folder, id)
  {
    hide RequestAad, ResponseAad, Window, HandleListed;
    ListedMeans(t, channel, capacity, req, handler, nonce);
    var frame := t.folder[Req(req)];
    var op := OpenRequest(channel, req, frame).value;
    run := Run(req, frame.nonce, op, handler(op));
    response := SealResponse(channel, req, frame.nonce, nonce, handler(op));
  }

  lemma SkipsListed(t: State, channel: Id, capacity: nat, req: Id, handler: Handler, nonce: Nonce)
    requires t.server.Free? && !Answerable(t.folder, channel, capacity, req, t.accepted)
    ensures var t' := HandleListed(t, channel, capacity, req, handler, nonce);
            && t'.runs == t.runs && t'.accepted == t.accepted && t'.folder == t.folder - {Req(req)}
            && forall id :: SameResponse(t.folder, t'.folder, id)
  {
    hide RequestAad, ResponseAad, Window, HandleListed;
    ListedMeans(t, channel, capacity, req, handler, nonce);
  }

  lemma SameRequest(folder: Folder, t: Folder, listing: seq<Id>, at: seq<nat>, req: Id)
    requires FilesAfter(folder, t, listing, at) && req !in listing
    ensures Req(req) in t <==> Req(req) in folder
    ensures Req(req) in t ==> t[Req(req)] == folder[Req(req)]
  {
  }

  lemma InListing(s: State, t: State, channel: Id, listing: seq<Id>, handler: Handler, at: seq<nat>)
    requires RunsOf(s, t, channel, listing, handler, at)
    ensures forall i :: 0 <= i < |at| ==> at[i] < |listing|
  {
  }

  /** So a listed request that opens, under a nonce neither in the window nor in a file listed
      before it, is answered. */
  lemma FreshIsAnswered(s: State, s': State, channel: Id, capacity: nat, listing: seq<Id>, handler: Handler,
                        at: seq<nat>, k: nat)
    requires Passed(s, s', channel, capacity, listing, handler, at) && k < |listing|
    requires Answerable(s.folder, channel, capacity, listing[k], s.accepted)
    requires forall j :: 0 <= j < k && Req(listing[j]) in s.folder && s.folder[Req(listing[j])].Sealed? ==>
               s.folder[Req(listing[j])].nonce != s.folder[Req(listing[k])].nonce
    ensures k in at
  {
    var nonce := s.folder[Req(listing[k])].nonce;
    var history := s'.accepted[..|s.accepted| + AnsweredBefore(at, k)];
    EarlierDiffer(s, s', channel, listing, handler, at, k, nonce);
    hide Window, OpenRequest, RunsOf, Answered, FilesAfter, AnsweredBefore;
    assert Decided(s.folder, channel, capacity, listing[k], |s.accepted|, s'.accepted, at, k);
    WindowAfter(s.accepted, history, capacity, nonce);
  }

  lemma EarlierDiffer(s: State, s': State, channel: Id, listing: seq<Id>, handler: Handler, at: seq<nat>, k: nat,
                      nonce: Nonce)
    requires RunsOf(s, s', channel, listing, handler, at) && k < |listing|
    requires forall j :: 0 <= j < k && Req(listing[j]) in s.folder && s.folder[Req(listing[j])].Sealed? ==>
               s.folder[Req(listing[j])].nonce != nonce
    ensures s.accepted <= s'.accepted
    ensures forall m :: |s.accepted| <= m < |s.accepted| + AnsweredBefore(at, k) ==> s'.accepted[m] != nonce
  {
    hide Answered, AnsweredBefore;
    BeforeAreBefore(at, k);
    forall m | |s.accepted| <= m < |s.accepted| + AnsweredBefore(at, k) ensures s'.accepted[m] != nonce {
      var i := m - |s.accepted|;
      assert RunOf(s, s', channel, listing, handler, at[i], i);
      OpenedIsSealed(s.folder, s'.folder, channel, listing[at[i]], handler, s'.runs[|s.runs| + i]);
    }
  }

  lemma OpenedIsSealed(folder: Folder, folder': Folder, channel: Id, req: Id, handler: Handler, run: Run)
    requires Answered(folder, folder', channel, req, handler, run)
    ensures Req(req) in folder && folder[Req(req)].Sealed? && folder[Req(req)].nonce == run.nonce
  {
  }

  lemma WindowAfter(accepted: seq<Nonce>, history: seq<Nonce>, capacity: nat, nonce: Nonce)
    requires accepted <= history && nonce !in Window(accepted, capacity)
    requires forall i :: |accepted| <= i < |history| ==> history[i] != nonce
    ensures nonce !in Window(history, capacity)
  {
  }

  lemma {:induction false} BeforeAreBefore(at: seq<nat>, k: nat)
    requires forall i, j :: 0 <= i < j < |at| ==> at[i] < at[j]
    ensures forall i :: 0 <= i < AnsweredBefore(at, k) ==> at[i] < k
  {
    if at != [] && at[|at| - 1] >= k {
      BeforeAreBefore(at[..|at| - 1], k);
    }
  }

  class ChannelServer {
    var folder: Folder
    const channel: Id
    const replay: ReplayGuard
    /** The protocol state this server and its folder are in. */
    ghost var state: State

    ghost predicate Valid()
      reads this, replay
    {
      replay.Valid() && state.server.Free? && state.folder == folder && state.accepted == replay.accepted
    }

    constructor (channel: Id, replay: ReplayGuard)
      requires replay.Valid() && replay.accepted == []
      ensures Valid() && state == INITIAL && this.channel == channel && this.replay == replay
    {
      this.channel, this.replay := channel, replay;
      folder, state := map[], INITIAL;
    }

    /** Authenticate, then check for a replay, then run the handler and seal its answer. */
    method ProcessFile(req: Id, frame: Frame, handler: Handler, nonce: Nonce) returns (response: Option<Frame>)
      requires Valid()
      modifies replay
      ensures replay.Valid()
      ensures response.None? ==> replay.accepted == old(replay.accepted)
      ensures var body := OpenRequest(channel, req, frame);
              if body.Some? && frame.nonce !in Window(old(replay.accepted), replay.capacity)
              then response == Some(SealResponse(channel, req, frame.nonce, nonce, handler(body.value)))
                   && replay.accepted == old(replay.accepted) + [frame.nonce]
              else response == None
    {
      var body := OpenRequest(channel, req, frame);
      if body.None? {
        return None;
      }
      var ok := replay.CheckAndRecord(frame.nonce);
      if !ok {
        return None;
      }
      response := Some(SealResponse(channel, req, frame.nonce, nonce, handler(body.value)));
    }

    /** Handle every listed request once; the count is the handler runs. */
    method PollOnce(listing: seq<Id>, handler: Handler, draws: seq<Nonce>) returns (answered: nat)
      requires Valid() && |draws| == |listing|
      modifies this, replay
      ensures Valid()
      ensures state == Pass(old(state), channel, replay.capacity, listing, handler, draws)
      ensures answered == |state.runs| - |old(state.runs)|
      ensures forall i :: 0 <= i < |listing| ==> Req(listing[i]) !in folder
      ensures Distinct(listing) ==>
                exists at :: Passed(old(state), state, channel, replay.capacity, listing, handler, at)
    {
      hide RequestAad, ResponseAad, Window, Passed, HandleListed, SealResponse, Distinct;
      answered := 0;
      ghost var at: seq<nat> := [];
      NothingPassed(state, channel, replay.capacity, handler);
      assert listing[0..] == listing && draws[0..] == draws;
      for i := 0 to |listing|
        invariant Valid()
        invariant Pass(state, channel, replay.capacity, listing[i..], handler, draws[i..])
               == Pass(old(state), channel, replay.capacity, listing, handler, draws)
        invariant answered == |state.runs| - |old(state.runs)|
        invariant forall j :: 0 <= j < i ==> Req(listing[j]) !in folder
        invariant Distinct(listing) ==>
                    Passed(old(state), state, channel, replay.capacity, listing[..i], handler, at)
      {
        var req := listing[i];
        assert listing[i..][1..] == listing[i + 1..] && draws[i..][1..] == draws[i + 1..];
        ghost var next := HandleListed(state, channel, replay.capacity, req, handler, draws[i]);
        assert listing[..i + 1] == listing[..i] + [req];
        ListedMeans(state, channel, replay.capacity, req, handler, draws[i]);
        if Distinct(listing) {
          NotBefore(listing, i);
          at := OneMoreListed(old(state), state, channel, replay.capacity, listing[..i], handler, at, req, draws[i]);
        }
        if Req(req) in folder {
          var response := ProcessFile(req, folder[Req(req)], handler, draws[i]);
          if response.Some? {
            folder := folder[Resp(req) := response.value];
            answered := answered + 1;
          }
          folder := folder - {Req(req)};
        }
        state := next;
      }
      assert listing[..|listing|] == listing;
    }
  }
}
