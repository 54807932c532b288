/** The sealed channel's framing and replay window (channel/src/auth.rs). */
module ChannelAuth {
  import opened Hashing
  import opened Encoding

  // ---- additional authenticated data ---------------------------------------

  function Ascii(s: string): (bytes: seq<byte>)
    requires forall i :: 0 <= i < |s| ==> s[i] as int < 128
    ensures |bytes| == |s|
  {
    seq(|s|, i requires 0 <= i < |s| => s[i] as int)
  }

  const PROTOCOL_VERSION: nat := 1
  const DOMAIN_REQUEST: seq<byte> := Ascii("signet-channel/v1/request")
  const DOMAIN_RESPONSE: seq<byte> := Ascii("signet-channel/v1/response")

  type Id = seq<byte>

  const NONCE_LEN: nat := 12
  type Nonce = n: seq<byte> | |n| == NONCE_LEN witness Zeros(NONCE_LEN)

  function RequestAad(channel: Id, req: Id): seq<byte> {
    LengthPrefixed(DOMAIN_REQUEST) + (BigEndian(2, PROTOCOL_VERSION) + (LengthPrefixed(channel) + LengthPrefixed(req)))
  }

  function ResponseAad(channel: Id, req: Id, nonce: Nonce): seq<byte> {
    LengthPrefixed(DOMAIN_RESPONSE)
      + (BigEndian(2, PROTOCOL_VERSION) + (LengthPrefixed(channel) + (LengthPrefixed(req) + LengthPrefixed(nonce))))
  }

  predicate Short(id: Id) {
    |id| < U32_SPAN
  }

  lemma DomainsAreShort()
    ensures Short(DOMAIN_REQUEST) && Short(DOMAIN_RESPONSE) && |DOMAIN_REQUEST| != |DOMAIN_RESPONSE|
  {
  }

  /** A request's data binds its channel and its id. */
  lemma RequestAadBinds(c: Id, r: Id, c': Id, r': Id)
    requires Short(c) && Short(r) && Short(c') && Short(r')
    ensures RequestAad(c, r) == RequestAad(c', r') <==> c == c' && r == r'
  {
    hide LengthPrefixed, BigEndian;
    if RequestAad(c, r) == RequestAad(c', r') {
      var v := BigEndian(2, PROTOCOL_VERSION);
      var t, t' := LengthPrefixed(c) + LengthPrefixed(r), LengthPrefixed(c') + LengthPrefixed(r');
      SplitEqual(LengthPrefixed(DOMAIN_REQUEST), v + t, LengthPrefixed(DOMAIN_REQUEST), v + t');
      SplitEqual(v, t, v, t');
      LengthPrefixIsPrefixFree(c, LengthPrefixed(r), c', LengthPrefixed(r'));
      FieldIsPrefixFree(r, r');
    }
  }

  /** A response's data binds its channel, its id and the nonce of the request it answers. */
  lemma ResponseAadBinds(c: Id, r: Id, n: Nonce, c': Id, r': Id, n': Nonce)
    requires Short(c) && Short(r) && Short(c') && Short(r')
    ensures ResponseAad(c, r, n) == ResponseAad(c', r', n') <==> c == c' && r == r' && n == n'
  {
    hide LengthPrefixed, BigEndian;
    if ResponseAad(c, r, n) == ResponseAad(c', r', n') {
      var v := BigEndian(2, PROTOCOL_VERSION);
      var u, u' := LengthPrefixed(r) + LengthPrefixed(n), LengthPrefixed(r') + LengthPrefixed(n');
      var t, t' := LengthPrefixed(c) + u, LengthPrefixed(c') + u';
      SplitEqual(LengthPrefixed(DOMAIN_RESPONSE), v + t, LengthPrefixed(DOMAIN_RESPONSE), v + t');
      SplitEqual(v, t, v, t');
      LengthPrefixIsPrefixFree(c, u, c', u');
      LengthPrefixIsPrefixFree(r, LengthPrefixed(n), r', LengthPrefixed(n'));
      FieldIsPrefixFree(n, n');
    }
  }

  lemma FieldIsPrefixFree(a: seq<byte>, b: seq<byte>)
    requires Short(a) && Short(b) && LengthPrefixed(a) == LengthPrefixed(b)
    ensures a == b
  {
    LengthPrefixIsPrefixFree(a, [], b, []);
  }

  /** No request's data is any response's, whatever the fields. */
  lemma DirectionsAreApart(c: Id, r: Id, c': Id, r': Id, n': Nonce)
    ensures RequestAad(c, r) != ResponseAad(c', r', n')
  {
    if RequestAad(c, r) == ResponseAad(c', r', n') {
      DomainsAreShort();
      LengthPrefixIsPrefixFree(
        DOMAIN_REQUEST, BigEndian(2, PROTOCOL_VERSION) + (LengthPrefixed(c) + LengthPrefixed(r)),
        DOMAIN_RESPONSE, BigEndian(2, PROTOCOL_VERSION)
            + (LengthPrefixed(c') + (LengthPrefixed(r') + LengthPrefixed(n'))));
      assert false;
    }
  }

  /** The length cast is where the binding ends: at 2^32 bytes a field's prefix is that of
      an empty one, and the boundary between the two fields is lost. */
  lemma LongFieldsCollide(n: Nonce)
    ensures var long := Zeros(U32_SPAN);
            && long != [] && RequestAad(long, []) == RequestAad([], long)
            && ResponseAad(long, [], n) == ResponseAad([], long, n)
  {
    var long := Zeros(U32_SPAN);
    PrefixWraps();
    assert LengthPrefixed(long) + LengthPrefixed([]) == LengthPrefixed([]) + LengthPrefixed(long);
    assert LengthPrefixed(long) + (LengthPrefixed([]) + LengthPrefixed(n))
        == LengthPrefixed([]) + (LengthPrefixed(long) + LengthPrefixed(n));
  }

  /** Fields of at most `n` bytes are bound by a request's data. */
  ghost predicate RequestsBind(n: nat) {
    forall c: Id, r: Id, c': Id, r': Id | |c| <= n && |r| <= n && |c'| <= n && |r'| <= n ::
      RequestAad(c, r) == RequestAad(c', r') ==> c == c' && r == r'
  }

  /** Fields of at most `n` bytes, and any nonce, are bound by a response's data. */
  ghost predicate ResponsesBind(n: nat) {
    forall c: Id, r: Id, x: Nonce, c': Id, r': Id, x': Nonce | |c| <= n && |r| <= n && |c'| <= n && |r'| <= n ::
      ResponseAad(c, r, x) == ResponseAad(c', r', x') ==> c == c' && r == r' && x == x'
  }

  /** The data binds all fields of at most so many bytes exactly below 2^32. */
  lemma BindsExactlyBelow(n: nat)
    ensures RequestsBind(n) <==> n < U32_SPAN
    ensures ResponsesBind(n) <==> n < U32_SPAN
  {
    hide RequestAad, ResponseAad, Zeros;
    if n < U32_SPAN {
      forall c: Id, r: Id, c': Id, r': Id | |c| <= n && |r| <= n && |c'| <= n && |r'| <= n
        ensures RequestAad(c, r) == RequestAad(c', r') ==> c == c' && r == r'
      {
        RequestAadBinds(c, r, c', r');
      }
      forall c: Id, r: Id, x: Nonce, c': Id, r': Id, x': Nonce | |c| <= n && |r| <= n && |c'| <= n && |r'| <= n
        ensures ResponseAad(c, r, x) == ResponseAad(c', r', x') ==> c == c' && r == r' && x == x'
      {
        ResponseAadBinds(c, r, x, c', r', x');
      }
    } else {
      var x: Nonce := Zeros(NONCE_LEN);
      LongFieldsCollide(x);
      var long := Zeros(U32_SPAN);
      assert RequestAad(long, []) == RequestAad([], long);
      assert ResponseAad(long, [], x) == ResponseAad([], long, x);
    }
  }

  lemma PrefixWraps()
    ensures BigEndian(4, U32_SPAN) == BigEndian(4, 0) == Zeros(4)
  {
    assert BigEndian(1, U32_SPAN / 0x100_0000) == [0];
    assert BigEndian(2, U32_SPAN / 0x1_0000) == [0, 0];
    assert BigEndian(3, U32_SPAN / 0x100) == [0, 0, 0];
    assert BigEndian(4, U32_SPAN) == [0, 0, 0, 0];
    assert BigEndian(1, 0) == [0];
    assert BigEndian(2, 0) == [0, 0];
    assert BigEndian(3, 0) == [0, 0, 0];
    assert BigEndian(4, 0) == [0, 0, 0, 0];
  }

  // ---- the replay window ---------------------------------------------------

  /** The last `capacity` nonces of a history. */
  function Window(history: seq<Nonce>, capacity: nat): seq<Nonce> {
    if |history| <= capacity then history else history[|history| - capacity..]
  }

  /** No nonce is accepted twice within `capacity` acceptances. */
  ghost predicate Spaced(history: seq<Nonce>, capacity: nat) {
    forall i, j :: 0 <= i < j < |history| && history[i] == history[j] ==> j - i > capacity
  }

  /** Accepting what is outside the window, and only that, keeps repeats apart. */
  lemma AcceptKeepsSpacing(history: seq<Nonce>, capacity: nat, nonce: Nonce)
    requires Spaced(history, capacity)
    ensures nonce !in Window(history, capacity) <==> Spaced(history + [nonce], capacity)
  {
    var longer := history + [nonce];
    if nonce in Window(history, capacity) {
      var i := WindowIndex(history, capacity, nonce);
      assert longer[i] == longer[|history|];
    } else {
      forall i, j | 0 <= i < j < |longer| && longer[i] == longer[j] ensures j - i > capacity {
        if j < |history| {
          assert history[i] == history[j];
        } else {
          OutsideWindow(history, capacity, i);
        }
      }
    }
  }

  lemma WindowIndex(history: seq<Nonce>, capacity: nat, nonce: Nonce) returns (i: nat)
    requires nonce in Window(history, capacity)
    ensures |history| - capacity <= i < |history| && history[i] == nonce
  {
    var w := Window(history, capacity);
    var k :| 0 <= k < |w| && w[k] == nonce;
    i := |history| - |w| + k;
  }

  lemma OutsideWindow(history: seq<Nonce>, capacity: nat, i: nat)
    requires i < |history| && history[i] !in Window(history, capacity)
    ensures |history| - i > capacity
  {
    if |history| - i <= capacity {
      InsideWindow(history, capacity, i);
    }
  }

  lemma InsideWindow(history: seq<Nonce>, capacity: nat, i: nat)
    requires i < |history| && |history| - i <= capacity
    ensures history[i] in Window(history, capacity)
  {
    var w := Window(history, capacity);
    assert w[i - (|history| - |w|)] == history[i];
  }

  class ReplayGuard {
    var seen: set<Nonce>
    var order: seq<Nonce>
    const capacity: nat
    /** Every nonce ever accepted, in order. */
    ghost var accepted: seq<Nonce>

    ghost predicate Valid()
      reads this
    {
      && capacity >= 1
      && order == Window(accepted, capacity)
      && seen == (set n | n in order)
      && Spaced(accepted, capacity)
    }

    constructor (capacity: nat)
      ensures Valid() && accepted == []
      ensures this.capacity == if capacity >= 1 then capacity else 1
    {
      seen, order, accepted := {}, [], [];
      this.capacity := if capacity >= 1 then capacity else 1;
    }

    /** Accept exactly the nonces not among the last `capacity` accepted. */
    method CheckAndRecord(nonce: Nonce) returns (ok: bool)
      requires Valid()
      modifies this
      ensures Valid()
      ensures ok <==> nonce !in Window(old(accepted), capacity)
      ensures accepted == if ok then old(accepted) + [nonce] else old(accepted)
    {
      if nonce in seen {
        return false;
      }
      AcceptKeepsSpacing(accepted, capacity, nonce);
      if |order| >= capacity {
        WindowIsDistinct(accepted, capacity);
        var evicted := order[0];
        order := order[1..];
        seen := seen - {evicted};
      }
      seen := seen + {nonce};
      order := order + [nonce];
      accepted := accepted + [nonce];
      ok := true;
    }
  }

  /** A well-spaced history has no repeat in its window. */
  lemma WindowIsDistinct(history: seq<Nonce>, capacity: nat)
    requires Spaced(history, capacity)
    ensures var w := Window(history, capacity); forall i, j :: 0 <= i < j < |w| ==> w[i] != w[j]
  {
    var w := Window(history, capacity);
    var start := |history| - |w|;
    forall i, j | 0 <= i < j < |w| ensures w[i] != w[j] {
      assert history[start + i] == w[i] && history[start + j] == w[j];
    }
  }
}
