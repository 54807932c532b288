/** The storage transport's response reader (`read_response`, cli/src/bucket_transport.rs):
    what one response is worth however its bytes are split over reads, and when the
    connection it came on is fit for another request. */
module BucketTransport {
  import opened Hashing

  const READ_SIZE: nat := 8 * 1024
  const MAX_HEADER_BYTES: nat := 64 * 1024
  const MAX_ERROR_BODY_BYTES: nat := 64 * 1024
  const CR: byte := 13
  const LF: byte := 10

  /** What the status line and the headers say. */
  datatype Head = Head(status: nat, contentLength: Option<nat>, chunked: bool, close: bool)

  datatype Response = Response(status: nat, body: seq<byte>, reusable: bool)

  /** `TimedOut` stands for every failed read and for a deadline passed. */
  datatype Failure = TimedOut | ClosedEarly | HeadersTooLarge | BadStatusLine | Chunked | NoContentLength

  datatype Outcome = Ok(response: Response) | Err(failure: Failure)

  /** A connection's incoming bytes. A read yields any non-empty part of what is still to
      come, nothing only at the end, and fails only on a faulty wire. */
  class Wire {
    const stream: seq<byte>
    const faulty: bool
    var cursor: nat

    ghost predicate Valid()
      reads this
    {
      cursor <= |stream|
    }

    constructor (stream: seq<byte>, faulty: bool)
      ensures this.stream == stream && this.faulty == faulty && cursor == 0 && Valid()
    {
      this.stream, this.faulty, cursor := stream, faulty, 0;
    }

    method Read() returns (data: Option<seq<byte>>)
      requires Valid()
      modifies this
      ensures Valid()
      ensures data.None? ==> faulty && cursor == old(cursor)
      ensures data.Some? ==>
                && |data.value| <= READ_SIZE && cursor == old(cursor) + |data.value|
                && data.value == stream[old(cursor)..cursor]
                && (data.value == [] <==> old(cursor) == |stream|)
    {
      var fails: bool := *;
      if faulty && fails {
        return None;
      }
      if cursor == |stream| {
        return Some([]);
      }
      var most := if READ_SIZE <= |stream| - cursor then READ_SIZE else |stream| - cursor;
      var n: nat :| 1 <= n <= most;
      data := Some(stream[cursor..cursor + n]);
      cursor := cursor + n;
    }
  }

  // ---- the end of the headers ----------------------------------------------

  predicate BlankLineAt(s: seq<byte>, i: nat) {
    i + 4 <= |s| && s[i] == CR && s[i + 1] == LF && s[i + 2] == CR && s[i + 3] == LF
  }

  function SearchFrom(s: seq<byte>, i: nat): (r: Option<nat>)
    ensures r.Some? ==> r.value <= |s|
    decreases |s| - i
  {
    if i + 4 > |s| then None else if BlankLineAt(s, i) then Some(i + 4) else SearchFrom(s, i + 1)
  }

  /** Where the body starts: just past the first blank line. */
  function HeadersEnd(s: seq<byte>): (r: Option<nat>)
    ensures r.Some? ==> r.value <= |s|
  {
    SearchFrom(s, 0)
  }

  lemma {:induction false} SearchMeans(s: seq<byte>, i: nat)
    ensures SearchFrom(s, i).None? <==> forall k :: i <= k ==> !BlankLineAt(s, k)
    ensures SearchFrom(s, i).Some? ==>
              var h := SearchFrom(s, i).value;
              i + 4 <= h <= |s| && BlankLineAt(s, h - 4) && forall k :: i <= k < h - 4 ==> !BlankLineAt(s, k)
    decreases |s| - i
  {
    if i + 4 <= |s| && !BlankLineAt(s, i) {
      SearchMeans(s, i + 1);
    }
  }

  ghost predicate CrLfCrLf(s: seq<byte>, k: nat) {
    k + 4 <= |s| && s[k..k + 4] == [13, 10, 13, 10]
  }

  /** The headers end just past the first CR LF CR LF. */
  lemma HeadersEndMeans(s: seq<byte>, h: nat)
    ensures HeadersEnd(s) == Some(h)
       <==> h >= 4 && CrLfCrLf(s, h - 4) && forall k: nat :: k < h - 4 ==> !CrLfCrLf(s, k)
  {
    hide CrLfCrLf, BlankLineAt, SearchFrom;
    SearchMeans(s, 0);
    forall k: nat ensures CrLfCrLf(s, k) <==> BlankLineAt(s, k) {
      BlankMeans(s, k);
    }
  }

  lemma BlankMeans(s: seq<byte>, k: nat)
    ensures CrLfCrLf(s, k) <==> BlankLineAt(s, k)
  {
    if k + 4 <= |s| {
      assert s[k..k + 4] == [s[k], s[k + 1], s[k + 2], s[k + 3]];
    }
  }

  /** What has arrived shows the end of the headers exactly when it is among what has
      arrived, and in the right place. */
  lemma PrefixEnd(s: seq<byte>, n: nat)
    requires n <= |s|
    ensures HeadersEnd(s[..n]).Some? <==> HeadersEnd(s).Some? && HeadersEnd(s).value <= n
    ensures HeadersEnd(s[..n]).Some? ==> HeadersEnd(s[..n]) == HeadersEnd(s)
  {
    SearchMeans(s, 0);
    SearchMeans(s[..n], 0);
    assert forall k: nat :: BlankLineAt(s[..n], k) <==> BlankLineAt(s, k) && k + 4 <= n;
  }

  // ---- the header phase, by how the bytes are split over reads -------------

  /** What a run of reads has brought, `ends` saying how far each one got. */
  function Brought(ends: seq<nat>): nat {
    if ends == [] then 0 else ends[|ends| - 1]
  }

  function Before(ends: seq<nat>): seq<nat>
    requires ends != []
  {
    ends[..|ends| - 1]
  }

  /** Each read brought at least one byte, at most a buffer's worth, and only what there is. */
  predicate IsSplit(s: seq<byte>, ends: seq<nat>) {
    ends == [] ||
    (IsSplit(s, Before(ends)) && Brought(Before(ends)) < Brought(ends) <= Brought(Before(ends)) + READ_SIZE
     && Brought(ends) <= |s|)
  }

  datatype HeadPhase = Taken(end: nat) | TooLarge | Starved

  /** What is decided once `got` bytes have come: too many, or headers that end, or nothing. */
  function Decision(s: seq<byte>, got: nat): HeadPhase
    requires got <= |s|
  {
    if got > MAX_HEADER_BYTES then TooLarge
    else
      match HeadersEnd(s[..got])
      case Some(h) => Taken(h)
      case None => Starved
  }

  /** The header phase as a function of the stream and the split: the first decision made. */
  function Phase(s: seq<byte>, ends: seq<nat>): HeadPhase
    requires IsSplit(s, ends)
  {
    if ends != [] && !Phase(s, Before(ends)).Starved? then Phase(s, Before(ends)) else Decision(s, Brought(ends))
  }

  /** The reads end without a head: too much has come, or all there is. */
  predicate Refuses(s: seq<byte>, ends: seq<nat>)
    requires IsSplit(s, ends)
  {
    Phase(s, ends).TooLarge? || (Phase(s, ends).Starved? && Brought(ends) == |s|)
  }

  /** Headers that end by here are accepted however the bytes are split over reads. */
  const SURE_HEADER_BYTES: nat := MAX_HEADER_BYTES - READ_SIZE + 1

  ghost predicate MayGiveUp(s: seq<byte>) {
    var h := HeadersEnd(s);
    h.None? || (h.value > SURE_HEADER_BYTES && |s| > MAX_HEADER_BYTES)
  }

  /** What any split comes to: a head taken is the stream's own, and a refusal is one
      `MayGiveUp` allows. */
  lemma {:induction false} SplitMeans(s: seq<byte>, ends: seq<nat>)
    requires IsSplit(s, ends)
    ensures var d := Phase(s, ends);
            d.Taken? ==> HeadersEnd(s) == Some(d.end) && d.end <= MAX_HEADER_BYTES && d.end <= Brought(ends)
    ensures Refuses(s, ends) ==> MayGiveUp(s)
    ensures Phase(s, ends).TooLarge? ==> |s| > MAX_HEADER_BYTES
    ensures Phase(s, ends).Starved? && Brought(ends) == |s| ==> HeadersEnd(s).None?
    decreases |ends|
  {
    hide HeadersEnd;
    PrefixEnd(s, Brought(ends));
    assert s[..|s|] == s;
    if ends != [] {
      SplitMeans(s, Before(ends));
      PrefixEnd(s, Brought(Before(ends)));
    }
  }

  /** One byte a read. */
  function Trickle(n: nat): (ends: seq<nat>)
    ensures Brought(ends) == n && |ends| == n
  {
    if n == 0 then [] else Trickle(n - 1) + [n]
  }

  lemma {:induction false} TrickleStarves(s: seq<byte>, n: nat)
    requires n <= |s| && n <= MAX_HEADER_BYTES && (HeadersEnd(s).Some? ==> n < HeadersEnd(s).value)
    ensures IsSplit(s, Trickle(n)) && Phase(s, Trickle(n)).Starved?
  {
    hide HeadersEnd;
    PrefixEnd(s, n);
    if n > 0 {
      TrickleStarves(s, n - 1);
      assert Before(Trickle(n)) == Trickle(n - 1);
    }
  }

  /** And then one more read. */
  lemma OneMore(s: seq<byte>, ends: seq<nat>, end: nat)
    requires IsSplit(s, ends) && Phase(s, ends).Starved?
    requires Brought(ends) < end <= Brought(ends) + READ_SIZE && end <= |s|
    ensures IsSplit(s, ends + [end]) && Brought(ends + [end]) == end && Phase(s, ends + [end]) == Decision(s, end)
  {
    assert Before(ends + [end]) == ends;
  }

  /** A split that is refused, where one may be. */
  lemma SomeSplitRefuses(s: seq<byte>) returns (ends: seq<nat>)
    requires MayGiveUp(s)
    ensures IsSplit(s, ends) && Refuses(s, ends)
  {
    hide HeadersEnd, IsSplit, Phase;
    SearchEnds(s);
    var h := HeadersEnd(s);
    if h.None? && |s| <= MAX_HEADER_BYTES {
      ends := Trickle(|s|);
      TrickleStarves(s, |s|);
    } else {
      var n := if h.None? || h.value > MAX_HEADER_BYTES then MAX_HEADER_BYTES else h.value - 1;
      var end := if n + READ_SIZE <= |s| then n + READ_SIZE else |s|;
      TrickleStarves(s, n);
      OneMore(s, Trickle(n), end);
      ends := Trickle(n) + [end];
    }
  }

  lemma SearchEnds(s: seq<byte>)
    ensures HeadersEnd(s).Some? ==> 4 <= HeadersEnd(s).value
  {
    SearchMeans(s, 0);
  }

  /** How the bytes are split over reads decides: some split of a stream is refused exactly
      when its headers do not end, or end too near the maximum with the stream running past
      it; and some split is taken exactly when they end within the maximum. */
  lemma SplitsDecide(s: seq<byte>)
    ensures (exists ends :: IsSplit(s, ends) && Refuses(s, ends)) <==> MayGiveUp(s)
    ensures (exists ends :: IsSplit(s, ends) && Phase(s, ends).Taken?)
            <==> HeadersEnd(s).Some? && HeadersEnd(s).value <= MAX_HEADER_BYTES
  {
    hide HeadersEnd, Refuses, MayGiveUp;
    forall ends | IsSplit(s, ends)
      ensures Refuses(s, ends) ==> MayGiveUp(s)
      ensures Phase(s, ends).Taken? ==> HeadersEnd(s).Some? && HeadersEnd(s).value <= MAX_HEADER_BYTES
    {
      SplitMeans(s, ends);
    }
    if MayGiveUp(s) {
      var ends := SomeSplitRefuses(s);
    }
    if HeadersEnd(s).Some? && HeadersEnd(s).value <= MAX_HEADER_BYTES {
      SearchEnds(s);
      var h := HeadersEnd(s).value;
      TrickleStarves(s, h - 1);
      PrefixEnd(s, h);
      OneMore(s, Trickle(h - 1), h);
      assert Phase(s, Trickle(h - 1) + [h]).Taken?;
    }
  }

  /** The header phase, from wherever the connection stands: it is the function of what is
      still to come and of how the reads split it, and it leaves the cursor where they got. */
  method ReadHead(wire: Wire) returns (buf: seq<byte>, r: Option<nat>, failure: Failure, ghost ends: seq<nat>)
    requires wire.Valid()
    modifies wire
    ensures wire.Valid() && wire.cursor >= old(wire.cursor)
    ensures var s, got := wire.stream[old(wire.cursor)..], wire.cursor - old(wire.cursor);
            && buf == s[..got] && IsSplit(s, ends) && Brought(ends) == got
            && (r == if Phase(s, ends).Taken? then Some(Phase(s, ends).end) else None)
            && (Phase(s, ends).TooLarge? <==> r.None? && failure.HeadersTooLarge?)
            && (Phase(s, ends).Starved? ==> wire.faulty || got == |s|)
            && (r.None? ==> failure.HeadersTooLarge? || (failure.TimedOut? && wire.faulty)
                            || (failure.ClosedEarly? && Phase(s, ends).Starved? && got == |s|))
  {
    hide HeadersEnd, IsSplit, Phase, Brought;
    ghost var start, s := wire.cursor, wire.stream[wire.cursor..];
    buf, failure, ends := [], TimedOut, [];
    NoReads(s);
    r := HeadersEnd(buf);
    while r.None?
      invariant wire.Valid() && wire.cursor >= start && buf == s[..wire.cursor - start] && |buf| <= MAX_HEADER_BYTES
      invariant IsSplit(s, ends) && Brought(ends) == wire.cursor - start && Phase(s, ends) == Decision(s, |buf|)
      invariant r == HeadersEnd(buf) && !failure.HeadersTooLarge?
      decreases |wire.stream| - wire.cursor
    {
      var data := wire.Read();
      if data.None? {
        return buf, None, TimedOut, ends;
      }
      if data.value == [] {
        return buf, None, ClosedEarly, ends;
      }
      OneMore(s, ends, wire.cursor - start);
      ends := ends + [wire.cursor - start];
      buf := buf + data.value;
      assert buf == s[..wire.cursor - start];
      if |buf| > MAX_HEADER_BYTES {
        return buf, None, HeadersTooLarge, ends;
      }
      r := HeadersEnd(buf);
    }
  }

  lemma NoReads(s: seq<byte>)
    ensures s[..0] == [] && IsSplit(s, []) && Brought([]) == 0 && Phase(s, []) == Decision(s, 0)
  {
  }

  // ---- the whole response --------------------------------------------------

  /** A response whose body is the caller's data. */
  predicate IsData(wantBody: bool, head: Head) {
    wantBody && head.status < 300
  }

  /** The stream holds a whole data response of this head, its headers ending at `h`. */
  ghost predicate HoldsData(s: seq<byte>, h: nat, head: Head) {
    !head.chunked && head.contentLength.Some? && h + head.contentLength.value <= |s|
  }

  /** How much of a diagnostic body is asked for. */
  function DiagnosticCap(declared: Option<nat>): nat {
    if declared.Some? && declared.value <= MAX_ERROR_BODY_BYTES then declared.value else MAX_ERROR_BODY_BYTES
  }

  /** Best effort: up to the declared length or the cap, whatever stops it; on a sound wire that
      is all that was sent. */
  method ReadDiagnostic(wire: Wire, start: seq<byte>, declared: Option<nat>) returns (body: seq<byte>)
    requires wire.Valid() && |start| <= wire.cursor && start == wire.stream[wire.cursor - |start|..wire.cursor]
    modifies wire
    ensures wire.Valid() && wire.cursor >= old(wire.cursor)
    ensures var h := old(wire.cursor) - |start|; h + |body| <= wire.cursor && body == wire.stream[h..h + |body|]
    ensures declared.Some? ==> |body| <= declared.value
    ensures var h := old(wire.cursor) - |start|;
            wire.faulty || h + |body| == |wire.stream| || |body| >= DiagnosticCap(declared)
    // It reads no further once it has as much.
    ensures var h := old(wire.cursor) - |start|;
            wire.cursor == old(wire.cursor) || wire.cursor - h < DiagnosticCap(declared) + READ_SIZE
  {
    ghost var h := wire.cursor - |start|;
    body := start;
    var cap := DiagnosticCap(declared);
    while |body| < cap
      invariant wire.Valid() && wire.cursor >= old(wire.cursor) && wire.cursor == h + |body|
      invariant body == wire.stream[h..wire.cursor]
      invariant wire.cursor == old(wire.cursor) || wire.cursor - h < cap + READ_SIZE
      decreases |wire.stream| - wire.cursor
    {
      var data := wire.Read();
      if data.None? || data.value == [] {
        assert wire.faulty || wire.cursor == |wire.stream|;
        break;
      }
      body := body + data.value;
    }
    if declared.Some? && declared.value <= |body| {
      body := body[..declared.value];
    }
  }

  /** Data arrives whole or not at all. */
  method ReadData(wire: Wire, start: seq<byte>, target: nat)
    returns (body: Option<seq<byte>>, overshot: bool, failure: Failure)
    requires wire.Valid() && |start| <= wire.cursor && start == wire.stream[wire.cursor - |start|..wire.cursor]
    modifies wire
    ensures wire.Valid() && wire.cursor >= old(wire.cursor)
    ensures var h := old(wire.cursor) - |start|;
            if body.Some? then
              && h + target <= wire.cursor && body.value == wire.stream[h..h + target]
              && (overshot <==> wire.cursor > h + target)
            else
              && !overshot
              && ((failure.TimedOut? && wire.faulty) || (failure.ClosedEarly? && |wire.stream| < h + target))
  {
    ghost var h := wire.cursor - |start|;
    var got := start;
    while |got| < target
      invariant wire.Valid() && wire.cursor >= old(wire.cursor)
      invariant wire.cursor == h + |got| && got == wire.stream[h..wire.cursor]
      decreases |wire.stream| - wire.cursor
    {
      var data := wire.Read();
      if data.None? {
        return None, false, TimedOut;
      }
      if data.value == [] {
        return None, false, ClosedEarly;
      }
      got := got + data.value;
    }
    overshot := |got| > target;
    return Some(got[..target]), overshot, TimedOut;
  }

  /** What was read off the bytes to come, `read` of them, is this response: data is exactly
      the declared bytes after the headers, anything else is some of what was read; and it
      offers the connection for reuse exactly when it is data, the server keeps the connection
      open, and nothing past it has been read. */
  ghost predicate IsAnswer(s: seq<byte>, read: nat, wantBody: bool, parse: seq<byte> -> Option<Head>,
                           response: Response) {
    && read <= |s| && HeadersEnd(s).Some? && HeadersEnd(s).value <= read
    && var h := HeadersEnd(s).value;
    && parse(s[..h]).Some?
    && var head := parse(s[..h]).value;
    && response.status == head.status
    && if IsData(wantBody, head) then
         && HoldsData(s, h, head)
         && var end := h + head.contentLength.value;
         && end <= read && response.body == s[h..end]
         && (response.reusable <==> !head.close && read == end)
       else
         && response.body <= s[h..read] && !response.reusable
         && ((wantBody || head.status >= 400) && head.contentLength.Some? ==>
               |response.body| <= head.contentLength.value)
  }

  /** The bytes to come do not hold a response this reader takes, or one whose headers it may
      give up on. */
  ghost predicate MayFail(s: seq<byte>, wantBody: bool, parse: seq<byte> -> Option<Head>) {
    || MayGiveUp(s)
    || var h := HeadersEnd(s).value;
       var head := parse(s[..h]);
       || head.None?
       || (head.value.chunked && (wantBody || head.value.status >= 400))
       || (IsData(wantBody, head.value) && !HoldsData(s, h, head.value))
  }

  /** What each failure means of the bytes to come; only a faulty wire times out. */
  ghost predicate FailsAs(s: seq<byte>, faulty: bool, wantBody: bool, parse: seq<byte> -> Option<Head>,
                          failure: Failure) {
    var end := HeadersEnd(s);
    match failure
    case TimedOut => faulty
    case HeadersTooLarge => MayGiveUp(s) && |s| > MAX_HEADER_BYTES
    case ClosedEarly =>
      end.None? || var head := parse(s[..end.value]);
                   && head.Some? && IsData(wantBody, head.value) && !head.value.chunked
                   && head.value.contentLength.Some? && |s| < end.value + head.value.contentLength.value
    case BadStatusLine => end.Some? && parse(s[..end.value]).None?
    case Chunked => end.Some? && var head := parse(s[..end.value]);
                    head.Some? && head.value.chunked && (wantBody || head.value.status >= 400)
    case NoContentLength => end.Some? && var head := parse(s[..end.value]);
                            head.Some? && IsData(wantBody, head.value) && !head.value.chunked
                            && head.value.contentLength.None?
  }

  /** A diagnostic body is all that was sent, up to the declared length or the cap; with no body
      wanted it is what came with the headers. */
  ghost predicate Diagnosed(s: seq<byte>, read: nat, wantBody: bool, parse: seq<byte> -> Option<Head>, r: Response)
    requires IsAnswer(s, read, wantBody, parse, r)
  {
    var h := HeadersEnd(s).value;
    var head := parse(s[..h]).value;
    IsData(wantBody, head) ||
    if wantBody || head.status >= 400
    then h + |r.body| == |s| || |r.body| >= DiagnosticCap(head.contentLength)
    else h + |r.body| == read
  }

  /** One response, read from wherever the connection stands and however its bytes are split
      over reads: what is returned is the answer held by the bytes to come, and on a sound wire
      the call fails only if they hold none, and says why. */
  method ReadResponse(wire: Wire, wantBody: bool, parse: seq<byte> -> Option<Head>) returns (out: Outcome)
    requires wire.Valid()
    modifies wire
    ensures wire.Valid() && wire.cursor >= old(wire.cursor)
    ensures var s, read := wire.stream[old(wire.cursor)..], wire.cursor - old(wire.cursor);
            if out.Ok? then
              IsAnswer(s, read, wantBody, parse, out.response)
              && (wire.faulty || Diagnosed(s, read, wantBody, parse, out.response))
            else
              FailsAs(s, wire.faulty, wantBody, parse, out.failure) && (wire.faulty || MayFail(s, wantBody, parse))
  {
    hide HeadersEnd, IsSplit, Phase, IsAnswer, MayFail, MayGiveUp, HoldsData, FailsAs, Diagnosed, DiagnosticCap, IsData;
    ghost var start, s := wire.cursor, wire.stream[wire.cursor..];
    var buf, end, failure, ends := ReadHead(wire);
    SplitMeans(s, ends);
    if end.None? {
      GivesUp(s, ends, wire.faulty, wantBody, parse, failure);
      return Err(failure);
    }
    BodyStarts(wire.stream, start, end.value, wire.cursor - start);
    var parsed := parse(buf[..end.value]);
    if parsed.None? {
      NoHead(s, wire.faulty, wantBody, parse);
      return Err(BadStatusLine);
    }
    var head := parsed.value;
    var body, reusable, why := ReadBody(wire, wantBody, head, buf[end.value..]);
    if body.None? {
      NoBody(s, wire.faulty, wantBody, parse, why);
      return Err(why);
    }
    BodyLies(wire.stream, start, end.value, wire.cursor - start, |body.value|);
    Answers(s, wire.cursor - start, wire.faulty, wantBody, parse, Response(head.status, body.value, reusable));
    return Ok(Response(head.status, body.value, reusable));
  }

  /** What came past the headers, seen from the start of the stream. */
  lemma BodyStarts(stream: seq<byte>, start: nat, end: nat, read: nat)
    requires start + read <= |stream| && end <= read
    ensures stream[start..][..read][end..] == stream[start + end..start + read]
    ensures stream[start..][..read][..end] == stream[start..][..end]
  {
  }

  lemma BodyLies(stream: seq<byte>, start: nat, end: nat, read: nat, n: nat)
    requires start + read <= |stream| && end + n <= read
    ensures var s := stream[start..];
            stream[start + end..start + end + n] == s[end..end + n] <= s[end..read]
  {
    Sliced(stream, start, end, end + n);
    PrefixOf(stream[start..], end, read, n);
  }

  lemma Sliced(stream: seq<byte>, start: nat, a: nat, b: nat)
    requires start <= |stream| && a <= b <= |stream| - start
    ensures stream[start..][a..b] == stream[start + a..start + b]
  {
  }

  lemma PrefixOf(s: seq<byte>, a: nat, b: nat, n: nat)
    requires a + n <= b <= |s|
    ensures s[a..a + n] <= s[a..b]
  {
  }

  /** What a body of `n` bytes is, `read` having been read past the headers of the `left` there
      are. */
  ghost predicate BodyMeans(wantBody: bool, head: Head, n: nat, reusable: bool, read: int, left: int, faulty: bool) {
    if IsData(wantBody, head) then
      !head.chunked && head.contentLength == Some(n) && (reusable <==> !head.close && read == n)
    else
      && !reusable
      && if wantBody || head.status >= 400 then
           && (head.contentLength.Some? ==> n <= head.contentLength.value)
           && (faulty || n == left || n >= DiagnosticCap(head.contentLength))
         else n == read
  }

  ghost predicate BodyFails(wantBody: bool, head: Head, failure: Failure, left: int, faulty: bool) {
    match failure
    case TimedOut => faulty
    case Chunked => head.chunked && (wantBody || head.status >= 400)
    case NoContentLength => IsData(wantBody, head) && !head.chunked && head.contentLength.None?
    case ClosedEarly =>
      IsData(wantBody, head) && !head.chunked && head.contentLength.Some? && left < head.contentLength.value
    case _ => false
  }

  /** The body phase: `start` is what came with the headers. What is returned begins where they
      end; data is all of what was declared, and offered for reuse exactly if it is all that
      was read and the server keeps the connection open. */
  method ReadBody(wire: Wire, wantBody: bool, head: Head, start: seq<byte>)
    returns (body: Option<seq<byte>>, reusable: bool, failure: Failure)
    requires wire.Valid() && |start| <= wire.cursor && start == wire.stream[wire.cursor - |start|..wire.cursor]
    modifies wire
    ensures wire.Valid() && wire.cursor >= old(wire.cursor)
    ensures var h := old(wire.cursor) - |start|;
            match body
            case Some(b) =>
              && h + |b| <= wire.cursor && b == wire.stream[h..h + |b|]
              && BodyMeans(wantBody, head, |b|, reusable, wire.cursor - h, |wire.stream| - h, wire.faulty)
            case None => !reusable && BodyFails(wantBody, head, failure, |wire.stream| - h, wire.faulty)
  {
    reusable, failure := false, TimedOut;
    if !wantBody && head.status < 400 {
      return Some(start), false, TimedOut;
    }
    if head.chunked {
      return None, false, Chunked;
    }
    if head.status >= 300 {
      var read := ReadDiagnostic(wire, start, head.contentLength);
      return Some(read), false, TimedOut;
    }
    if head.contentLength.None? {
      return None, false, NoContentLength;
    }
    var overshot;
    body, overshot, failure := ReadData(wire, start, head.contentLength.value);
    if body.Some? {
      reusable := !head.close && !overshot && wantBody && head.contentLength == Some(|body.value|);
    }
  }

  lemma GivesUp(s: seq<byte>, ends: seq<nat>, faulty: bool, wantBody: bool, parse: seq<byte> -> Option<Head>,
                failure: Failure)
    requires IsSplit(s, ends) && !Phase(s, ends).Taken?
    requires Phase(s, ends).TooLarge? <==> failure.HeadersTooLarge?
    requires failure.HeadersTooLarge? || (failure.TimedOut? && faulty) || (failure.ClosedEarly? && Brought(ends) == |s|)
    ensures FailsAs(s, faulty, wantBody, parse, failure) && (faulty || MayFail(s, wantBody, parse))
  {
    hide HeadersEnd;
    SplitMeans(s, ends);
  }

  lemma NoHead(s: seq<byte>, faulty: bool, wantBody: bool, parse: seq<byte> -> Option<Head>)
    requires HeadersEnd(s).Some? && parse(s[..HeadersEnd(s).value]).None?
    ensures FailsAs(s, faulty, wantBody, parse, BadStatusLine) && MayFail(s, wantBody, parse)
  {
    hide HeadersEnd;
  }

  lemma NoBody(s: seq<byte>, faulty: bool, wantBody: bool, parse: seq<byte> -> Option<Head>, failure: Failure)
    requires HeadersEnd(s).Some? && parse(s[..HeadersEnd(s).value]).Some?
    requires BodyFails(wantBody, parse(s[..HeadersEnd(s).value]).value, failure, |s| - HeadersEnd(s).value, faulty)
    ensures FailsAs(s, faulty, wantBody, parse, failure) && (faulty || MayFail(s, wantBody, parse))
  {
    hide HeadersEnd;
  }

  lemma Answers(s: seq<byte>, read: nat, faulty: bool, wantBody: bool, parse: seq<byte> -> Option<Head>, r: Response)
    requires read <= |s| && HeadersEnd(s).Some? && HeadersEnd(s).value <= read && parse(s[..HeadersEnd(s).value]).Some?
    requires var h, head := HeadersEnd(s).value, parse(s[..HeadersEnd(s).value]).value;
             && r.status == head.status && h + |r.body| <= read && r.body == s[h..h + |r.body|] <= s[h..read]
             && BodyMeans(wantBody, head, |r.body|, r.reusable, read - h, |s| - h, faulty)
    ensures IsAnswer(s, read, wantBody, parse, r) && (faulty || Diagnosed(s, read, wantBody, parse, r))
  {
    hide HeadersEnd;
  }
}
