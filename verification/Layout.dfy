/** The chunk layout of a stored file (cli/src/commands.rs, crypto/src/envelope.rs): how many
    chunks, how many stored bytes, which byte ranges, and the chunk envelope. */
module Layout {
  import opened Hashing

  const MAX_PARTS: nat := 10_000
  const OVERHEAD: nat := 34
  const MAX_CHUNK_SIZE: nat := 0x7fff_ffff
  const I64_MAX: nat := 0x7fff_ffff_ffff_ffff

  function DivCeil(a: nat, b: nat): nat
    requires b >= 1
  {
    (a + b - 1) / b
  }

  lemma DivCeilBounds(a: nat, b: nat)
    requires b >= 1
    ensures a <= DivCeil(a, b) * b < a + b
  {
    var q, r := (a + b - 1) / b, (a + b - 1) % b;
    assert q * b + r == a + b - 1;
  }

  lemma DivCeilUnique(a: nat, b: nat, q: nat)
    requires b >= 1 && a <= q * b < a + b
    ensures DivCeil(a, b) == q
  {
    DivCeilBounds(a, b);
    var p := DivCeil(a, b);
    hide DivCeil;
    if p < q {
      StepMul(p, q, b);
    } else if q < p {
      StepMul(q, p, b);
    }
  }

  lemma StepMul(p: nat, q: nat, b: nat)
    requires p < q
    ensures p * b + b <= q * b
  {
    assert (p + 1) * b == p * b + b;
    MulMono(p + 1, q, b);
  }

  /** How many chunks a file has: an empty file has one, empty, chunk. */
  function ChunkCount(fileSize: nat, chunkSize: nat): (n: nat)
    requires chunkSize >= 1
    ensures n >= 1
  {
    if fileSize == 0 then 1
    else
      DivCeilBounds(fileSize, chunkSize);
      DivCeil(fileSize, chunkSize)
  }

  /** The size storage holds for a plaintext size. */
  function StoredSize(fileSize: nat, chunkSize: nat): nat
    requires chunkSize >= 1
  {
    fileSize + ChunkCount(fileSize, chunkSize) * OVERHEAD
  }

  datatype Plan = Plan(chunkCount: nat, declaredSize: nat)

  function ChunkPlan(fileSize: nat, chunkSize: nat): Option<Plan>
    requires chunkSize >= 1
  {
    var count := if fileSize == 0 then 1 else DivCeil(fileSize, chunkSize);
    if count > MAX_PARTS then None else Some(Plan(count, fileSize + count * OVERHEAD))
  }

  lemma CountBounds(fileSize: nat, chunkSize: nat)
    requires chunkSize >= 1
    ensures var n := ChunkCount(fileSize, chunkSize); (n - 1) * chunkSize <= fileSize <= n * chunkSize
    ensures var n := ChunkCount(fileSize, chunkSize); n > 1 ==> (n - 1) * chunkSize < fileSize
  {
    var n := ChunkCount(fileSize, chunkSize);
    if fileSize > 0 {
      DivCeilBounds(fileSize, chunkSize);
    }
    assert (n - 1) * chunkSize == n * chunkSize - chunkSize;
  }

  /** A plan is accepted exactly when the file fits in `MAX_PARTS` chunks, it declares the
      stored size, and for any chunk size the command line takes that size fits the `i64`
      it is cast to. */
  lemma PlanIsExact(fileSize: nat, chunkSize: nat)
    requires 1 <= chunkSize <= MAX_CHUNK_SIZE
    ensures ChunkPlan(fileSize, chunkSize).Some? <==> fileSize <= MAX_PARTS * chunkSize
    ensures ChunkPlan(fileSize, chunkSize).Some? ==>
              ChunkPlan(fileSize, chunkSize).value
              == Plan(ChunkCount(fileSize, chunkSize), StoredSize(fileSize, chunkSize))
              && StoredSize(fileSize, chunkSize) <= I64_MAX
  {
    var n := ChunkCount(fileSize, chunkSize);
    CountBounds(fileSize, chunkSize);
    if n <= MAX_PARTS {
      MulMono(n, MAX_PARTS, chunkSize);
    } else {
      MulMono(MAX_PARTS, n - 1, chunkSize);
    }
  }

  lemma MulMono(a: nat, b: nat, c: nat)
    requires a <= b
    ensures a * c <= b * c
  {
  }

  // ---- the stored size, inverted -------------------------------------------

  function MultipartPlaintextLen(ciphertextLen: nat, chunkSize: nat): Option<nat> {
    if chunkSize == 0 || ciphertextLen < OVERHEAD then
      None
    else
      var chunks := DivCeil(ciphertextLen, chunkSize + OVERHEAD);
      var n := if chunks >= 1 then chunks else 1;
      if ciphertextLen < n * OVERHEAD then None else Some(ciphertextLen - n * OVERHEAD)
  }

  /** The display inverts the framing: every file's stored size gives its size back. */
  lemma StoredSizeInverts(fileSize: nat, chunkSize: nat)
    requires chunkSize >= 1
    ensures MultipartPlaintextLen(StoredSize(fileSize, chunkSize), chunkSize) == Some(fileSize)
  {
    var n, per := ChunkCount(fileSize, chunkSize), chunkSize + OVERHEAD;
    CountBounds(fileSize, chunkSize);
    assert n * per == n * chunkSize + n * OVERHEAD;
    assert (n - 1) * chunkSize == n * chunkSize - chunkSize;
    DivCeilUnique(StoredSize(fileSize, chunkSize), per, n);
  }

  /** A stored length some file has: what is left over after whole chunks is more than an
      overhead, unless nothing is left over or it is one empty chunk. */
  predicate Framed(ciphertextLen: nat, chunkSize: nat) {
    var rest := ciphertextLen % (chunkSize + OVERHEAD);
    ciphertextLen >= OVERHEAD && (ciphertextLen == OVERHEAD || rest == 0 || rest > OVERHEAD)
  }

  /** The answer is right exactly on the lengths some file has; on the others it is a number
      no file of that stored length has, or none. */
  lemma PlaintextLenIsExact(ciphertextLen: nat, chunkSize: nat)
    requires chunkSize >= 1
    ensures var r := MultipartPlaintextLen(ciphertextLen, chunkSize);
            Framed(ciphertextLen, chunkSize) <==> r.Some? && StoredSize(r.value, chunkSize) == ciphertextLen
    ensures Framed(ciphertextLen, chunkSize) <==> exists p: nat :: StoredSize(p, chunkSize) == ciphertextLen
  {
    var r := MultipartPlaintextLen(ciphertextLen, chunkSize);
    if Framed(ciphertextLen, chunkSize) {
      FramedIsStored(ciphertextLen, chunkSize);
    }
    forall p: nat | StoredSize(p, chunkSize) == ciphertextLen
      ensures r == Some(p) && Framed(ciphertextLen, chunkSize)
    {
      StoredSizeInverts(p, chunkSize);
      StoredIsFramed(p, chunkSize);
    }
  }

  /** A stored length the display makes a number up for: what is left over after whole chunks
      is too little for a chunk, yet the overheads taken off leave something. */
  predicate Fabricates(ciphertextLen: nat, chunkSize: nat) {
    var per := chunkSize + OVERHEAD;
    && ciphertextLen > OVERHEAD && 0 < ciphertextLen % per <= OVERHEAD
    && DivCeil(ciphertextLen, per) * OVERHEAD <= ciphertextLen
  }

  /** Exactly there is the answer a length whose file is stored in another length; on every
      other length that no file has, there is no answer. */
  lemma FabricatesExactly(ciphertextLen: nat, chunkSize: nat)
    requires chunkSize >= 1
    ensures var r := MultipartPlaintextLen(ciphertextLen, chunkSize);
            && (r.Some? && StoredSize(r.value, chunkSize) != ciphertextLen <==> Fabricates(ciphertextLen, chunkSize))
            && (r.None? <==> !Framed(ciphertextLen, chunkSize) && !Fabricates(ciphertextLen, chunkSize))
  {
    PlaintextLenIsExact(ciphertextLen, chunkSize);
    var per := chunkSize + OVERHEAD;
    DivCeilBounds(ciphertextLen, per);
    hide DivCeil, StoredSize;
    assert ciphertextLen > 0 ==> DivCeil(ciphertextLen, per) >= 1;
  }

  /** As it does for 1044 stored bytes in chunks of 1000: 976, whose file takes 1010. */
  lemma FabricatesOne()
    ensures MultipartPlaintextLen(1044, 1000) == Some(976) && StoredSize(976, 1000) == 1010
    ensures Fabricates(1044, 1000) && forall p: nat :: StoredSize(p, 1000) != 1044
  {
    PlaintextLenIsExact(1044, 1000);
  }

  lemma FramedIsStored(c: nat, chunkSize: nat)
    requires chunkSize >= 1 && Framed(c, chunkSize)
    ensures var r := MultipartPlaintextLen(c, chunkSize); r.Some? && StoredSize(r.value, chunkSize) == c
  {
    if c == OVERHEAD {
      StoredSizeInverts(0, chunkSize);
    } else {
      var n, last := SplitFramed(c, chunkSize);
      hide MultipartPlaintextLen, StoredSize, Framed, DivCeil;
      WholeAndLast(n, last, chunkSize);
      StoredSizeInverts((n - 1) * chunkSize + last, chunkSize);
    }
  }

  lemma SplitFramed(c: nat, chunkSize: nat) returns (n: nat, last: nat)
    requires chunkSize >= 1 && c != OVERHEAD && Framed(c, chunkSize)
    ensures n >= 1 && 1 <= last <= chunkSize
    ensures c == (n - 1) * (chunkSize + OVERHEAD) + last + OVERHEAD
  {
    var per, rest := chunkSize + OVERHEAD, c % (chunkSize + OVERHEAD);
    n := DivCeil(c, per);
    DivCeilBounds(c, per);
    WholeAndRest(c, per, n);
    last := if rest == 0 then chunkSize else rest - OVERHEAD;
    assert (n - 1) * per == n * per - per;
  }

  /** The stored size of whole chunks and a last one. */
  lemma WholeAndLast(n: nat, last: nat, chunkSize: nat)
    requires n >= 1 && 1 <= last <= chunkSize
    ensures (n - 1) * chunkSize >= 0
    ensures StoredSize((n - 1) * chunkSize + last, chunkSize) == (n - 1) * (chunkSize + OVERHEAD) + last + OVERHEAD
  {
    assert (n - 1) * chunkSize == n * chunkSize - chunkSize;
    DivCeilUnique((n - 1) * chunkSize + last, chunkSize, n);
  }

  /** The rest after whole chunks, in terms of the rounded-up count. */
  lemma WholeAndRest(c: nat, per: nat, n: nat)
    requires per >= 1 && n >= 1 && c <= n * per < c + per
    ensures if c % per == 0 then c == n * per else c == (n - 1) * per + c % per
  {
    var q, r := c / per, c % per;
    assert c == q * per + r;
    assert (n - 1) * per == n * per - per;
    assert q <= n - 2 ==> q * per <= (n - 2) * per;
    assert q >= n + 1 ==> q * per >= (n + 1) * per;
  }

  lemma StoredIsFramed(p: nat, chunkSize: nat)
    requires chunkSize >= 1
    ensures Framed(StoredSize(p, chunkSize), chunkSize)
  {
    var n, per, c := ChunkCount(p, chunkSize), chunkSize + OVERHEAD, StoredSize(p, chunkSize);
    CountBounds(p, chunkSize);
    assert n * per == n * chunkSize + n * OVERHEAD;
    assert (n - 1) * chunkSize == n * chunkSize - chunkSize;
    WholeAndRest(c, per, n);
    assert (n - 1) * per == n * per - per;
  }

  // ---- chunks and envelopes ------------------------------------------------

  /** The plaintext of one chunk. */
  function Chunk(content: seq<byte>, chunkSize: nat, index: nat): (c: seq<byte>)
    requires chunkSize >= 1
    ensures |c| <= chunkSize
  {
    var start := index * chunkSize;
    if start >= |content| then []
    else if start + chunkSize <= |content| then content[start..start + chunkSize]
    else content[start..]
  }

  /** Every chunk but the last is full; the last holds the rest. */
  lemma ChunkLength(content: seq<byte>, chunkSize: nat, index: nat)
    requires chunkSize >= 1 && index < ChunkCount(|content|, chunkSize)
    ensures var n, length := ChunkCount(|content|, chunkSize), |Chunk(content, chunkSize, index)|;
            if index < n - 1 then length == chunkSize else length == |content| - (n - 1) * chunkSize
    ensures index * chunkSize + |Chunk(content, chunkSize, index)| <= |content|
    ensures Chunk(content, chunkSize, index)
            == content[index * chunkSize..index * chunkSize + |Chunk(content, chunkSize, index)|]
  {
    var n := ChunkCount(|content|, chunkSize);
    CountBounds(|content|, chunkSize);
    assert (n - 1) * chunkSize == n * chunkSize - chunkSize;
    if index < n - 1 {
      MulMono(index + 1, n - 1, chunkSize);
      assert (index + 1) * chunkSize == index * chunkSize + chunkSize;
    }
  }

  /** Every byte of a file is a byte of exactly the chunk its offset falls in. */
  lemma Locate(content: seq<byte>, chunkSize: nat, b: nat) returns (i: nat, r: nat)
    requires chunkSize >= 1 && b < |content|
    ensures i < ChunkCount(|content|, chunkSize) && b == i * chunkSize + r
    ensures r < |Chunk(content, chunkSize, i)| && Chunk(content, chunkSize, i)[r] == content[b]
  {
    i, r := b / chunkSize, b % chunkSize;
    var n := ChunkCount(|content|, chunkSize);
    assert b == i * chunkSize + r;
    CountBounds(|content|, chunkSize);
    assert i < n by {
      if i >= n {
        MulMono(n, i, chunkSize);
      }
    }
    ChunkLength(content, chunkSize, i);
  }

  /** A sealed chunk: what the key, the associated data and the plaintext determine. */
  datatype Envelope = Envelope(dek: nat, fileId: nat, index: nat, isLast: bool, plain: seq<byte>)

  /** One stored byte: which envelope it is a byte of and where, or any other byte. */
  datatype Cell = Cell(envelope: Envelope, at: nat) | Junk(value: byte)

  function Wire(e: Envelope): seq<Cell> {
    seq(OVERHEAD + |e.plain|, (j: nat) => Cell(e, j))
  }

  function SealChunk(dek: nat, fileId: nat, index: nat, count: nat, plain: seq<byte>): Option<seq<Cell>> {
    if count == 0 || index >= count then None
    else Some(Wire(Envelope(dek, fileId, index, index == count - 1, plain)))
  }

  function OpenChunk(dek: nat, fileId: nat, index: nat, count: nat, cells: seq<Cell>): Option<seq<byte>> {
    if count == 0 || index >= count || |cells| < OVERHEAD || cells[0].Junk? then None
    else
      var e := cells[0].envelope;
      if cells == Wire(e) && e == Envelope(dek, fileId, index, index == count - 1, e.plain) then Some(e.plain) else None
  }

  /** A chunk opens exactly as the sealed bytes of this key, file, index and last-chunk bit:
      nothing else opens, and the plaintext is the one sealed. */
  lemma OpensExactlyWhatWasSealed(
      dek: nat, fileId: nat, index: nat, count: nat, cells: seq<Cell>, plain: seq<byte>)
    ensures OpenChunk(dek, fileId, index, count, cells) == Some(plain)
            <==> SealChunk(dek, fileId, index, count, plain) == Some(cells)
  {
    var e := Envelope(dek, fileId, index, index == count - 1, plain);
    if 0 < count && index < count {
      assert Wire(e)[0] == Cell(e, 0);
    }
  }

  // ---- the stored object and its ranges ------------------------------------

  /** The stored object of a file: its first `k` sealed chunks, in order. */
  function Object(dek: nat, fileId: nat, content: seq<byte>, chunkSize: nat, k: nat): seq<Cell>
    requires chunkSize >= 1
  {
    if k == 0 then []
    else Object(dek, fileId, content, chunkSize, k - 1) + Wire(EnvelopeOf(dek, fileId, content, chunkSize, k - 1))
  }

  function EnvelopeOf(dek: nat, fileId: nat, content: seq<byte>, chunkSize: nat, index: nat): Envelope
    requires chunkSize >= 1
  {
    Envelope(dek, fileId, index, index == ChunkCount(|content|, chunkSize) - 1, Chunk(content, chunkSize, index))
  }

  /** The byte ranges a download asks for, both ends included; `u64::saturating_sub` for the
      last end. */
  function ChunkRanges(chunks: nat, chunkSize: nat, size: nat): seq<(nat, nat)> {
    seq(chunks, (i: nat) requires i < chunks => ChunkRange(chunks, chunkSize, size, i))
  }

  function ChunkRange(chunks: nat, chunkSize: nat, size: nat, i: nat): (nat, nat)
    requires i < chunks
  {
    var onDisk := chunkSize + OVERHEAD;
    var start := i * onDisk;
    (start, if i < chunks - 1 then start + onDisk - 1 else if size == 0 then 0 else size - 1)
  }

  lemma {:induction false} ObjectLength(dek: nat, fileId: nat, content: seq<byte>, chunkSize: nat, k: nat)
    requires chunkSize >= 1 && k <= ChunkCount(|content|, chunkSize)
    ensures |Object(dek, fileId, content, chunkSize, k)|
            == if k < ChunkCount(|content|, chunkSize) then k * (chunkSize + OVERHEAD)
               else StoredSize(|content|, chunkSize)
  {
    if k > 0 {
      ObjectLength(dek, fileId, content, chunkSize, k - 1);
      ChunkLength(content, chunkSize, k - 1);
      assert (k - 1) * (chunkSize + OVERHEAD) == (k - 1) * chunkSize + (k - 1) * OVERHEAD;
      assert k * (chunkSize + OVERHEAD) == (k - 1) * (chunkSize + OVERHEAD) + chunkSize + OVERHEAD;
    }
  }

  lemma {:induction false} ObjectHolds(dek: nat, fileId: nat, content: seq<byte>, chunkSize: nat, k: nat, i: nat)
    requires chunkSize >= 1 && i < k
    ensures var start := |Object(dek, fileId, content, chunkSize, i)|;
            var wire := Wire(EnvelopeOf(dek, fileId, content, chunkSize, i));
            var stored := Object(dek, fileId, content, chunkSize, k);
            start + |wire| <= |stored| && stored[start..start + |wire|] == wire
  {
    var before := Object(dek, fileId, content, chunkSize, k - 1);
    hide Chunk, ChunkCount;
    if i < k - 1 {
      ObjectHolds(dek, fileId, content, chunkSize, k - 1, i);
      var start := |Object(dek, fileId, content, chunkSize, i)|;
      var wire := Wire(EnvelopeOf(dek, fileId, content, chunkSize, i));
      assert Object(dek, fileId, content, chunkSize, k)[start..start + |wire|] == before[start..start + |wire|];
    }
  }

  /** The ranges cover the stored object without gap or overlap, and each one fetches
      exactly one sealed chunk, which opens to that chunk's plaintext. */
  lemma RangesFetchChunks(dek: nat, fileId: nat, content: seq<byte>, chunkSize: nat, i: nat)
    requires chunkSize >= 1 && i < ChunkCount(|content|, chunkSize)
    ensures var n, size := ChunkCount(|content|, chunkSize), StoredSize(|content|, chunkSize);
            var stored, ranges := Object(dek, fileId, content, chunkSize, n), ChunkRanges(n, chunkSize, size);
            && |stored| == size
            && (i == 0 ==> ranges[i].0 == 0)
            && ranges[i].0 <= ranges[i].1 < size
            && (if i < n - 1 then ranges[i + 1].0 == ranges[i].1 + 1 else ranges[i].1 == size - 1)
            && OpenChunk(dek, fileId, i, n, stored[ranges[i].0..ranges[i].1 + 1]) == Some(Chunk(content, chunkSize, i))
  {
    RangeIsPlaced(dek, fileId, content, chunkSize, i);
    FetchesChunk(dek, fileId, content, chunkSize, i);
    hide Object, Wire, Chunk, ChunkCount, StoredSize, OpenChunk, ChunkRange;
    FirstRange(ChunkCount(|content|, chunkSize), chunkSize, StoredSize(|content|, chunkSize));
  }

  lemma FirstRange(n: nat, chunkSize: nat, size: nat)
    requires n >= 1
    ensures ChunkRange(n, chunkSize, size, 0).0 == 0
    ensures ChunkRange(n, chunkSize, size, n - 1).1 == if size == 0 then 0 else size - 1
  {
  }

  lemma FetchesChunk(dek: nat, fileId: nat, content: seq<byte>, chunkSize: nat, i: nat)
    requires chunkSize >= 1 && i < ChunkCount(|content|, chunkSize)
    ensures var n, size := ChunkCount(|content|, chunkSize), StoredSize(|content|, chunkSize);
            var stored, range := Object(dek, fileId, content, chunkSize, n), ChunkRange(n, chunkSize, size, i);
            && range.0 <= range.1 < |stored| == size
            && OpenChunk(dek, fileId, i, n, stored[range.0..range.1 + 1]) == Some(Chunk(content, chunkSize, i))
  {
    var n := ChunkCount(|content|, chunkSize);
    var e := EnvelopeOf(dek, fileId, content, chunkSize, i);
    RangeIsPlaced(dek, fileId, content, chunkSize, i);
    ObjectHolds(dek, fileId, content, chunkSize, n, i);
    OpensExactlyWhatWasSealed(dek, fileId, i, n, Wire(e), e.plain);
    hide Object, Chunk, ChunkCount, StoredSize, OpenChunk, ChunkRange;
  }

  lemma RangeIsPlaced(dek: nat, fileId: nat, content: seq<byte>, chunkSize: nat, i: nat)
    requires chunkSize >= 1 && i < ChunkCount(|content|, chunkSize)
    ensures var n, size := ChunkCount(|content|, chunkSize), StoredSize(|content|, chunkSize);
            var range := ChunkRange(n, chunkSize, size, i);
            var wire := Wire(EnvelopeOf(dek, fileId, content, chunkSize, i));
            && |Object(dek, fileId, content, chunkSize, n)| == size
            && range.0 == |Object(dek, fileId, content, chunkSize, i)|
            && range.1 + 1 == range.0 + |wire|
            && (i < n - 1 ==> ChunkRange(n, chunkSize, size, i + 1).0 == range.1 + 1)
            && size >= 1
  {
    hide Chunk, ChunkCount, Object;
    var n := ChunkCount(|content|, chunkSize);
    ObjectLength(dek, fileId, content, chunkSize, n);
    ObjectLength(dek, fileId, content, chunkSize, i);
    ChunkLength(content, chunkSize, i);
    var onDisk := chunkSize + OVERHEAD;
    assert (i + 1) * onDisk == i * onDisk + onDisk;
    assert (n - 1) * onDisk == (n - 1) * chunkSize + (n - 1) * OVERHEAD;
  }
}
