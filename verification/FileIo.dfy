/** Reading a chunk and writing one through calls that may move fewer bytes than asked
    (`fill_chunk`, `write_plaintext_at`, cli/src/commands.rs). */
module FileIo {
  import opened Hashing
  import opened Layout
  import D = Download

  /** An open input file; a read yields any non-empty part of what is left, or fails. */
  class InputFile {
    const content: seq<byte>
    var position: nat
    /** How many reads have failed. */
    ghost var failures: nat

    constructor (content: seq<byte>)
      ensures this.content == content && position == 0 && failures == 0
    {
      this.content := content;
      position, failures := 0, 0;
    }

    method Seek(offset: nat)
      modifies this`position
      ensures position == offset
    {
      position := offset;
    }

    method Read(buf: array<byte>, from: nat) returns (n: Option<nat>)
      requires from < buf.Length
      modifies this, buf
      ensures failures == old(failures) + if n.None? then 1 else 0
      ensures n.None? ==> position == old(position) && buf[..] == old(buf[..])
      ensures n.Some? ==>
                && from + n.value <= buf.Length && position == old(position) + n.value
                && (n.value == 0 <==> old(position) >= |content|)
                && (n.value > 0 ==> position <= |content|)
                && buf[..from] == old(buf[..from])
                && (n.value > 0 ==> buf[from..from + n.value] == content[old(position)..position])
    {
      var fails: bool := *;
      if fails {
        failures := failures + 1;
        return None;
      }
      if position >= |content| {
        return Some(0);
      }
      var most := if buf.Length - from <= |content| - position then buf.Length - from else |content| - position;
      var k: nat :| 1 <= k <= most;
      forall i | 0 <= i < k {
        buf[from + i] := content[position + i];
      }
      position := position + k;
      return Some(k);
    }
  }

  /** The bytes of the file from an offset on, at most `most` of them. */
  function From(content: seq<byte>, offset: nat, most: nat): seq<byte> {
    if offset >= |content| then []
    else if offset + most <= |content| then content[offset..offset + most]
    else content[offset..]
  }

  /** However the reads come out short, the buffer gets all the file has there, up to its
      size; there is an error exactly if a read failed. */
  method FillChunk(file: InputFile, buf: array<byte>) returns (r: Option<nat>)
    modifies file, buf
    ensures r.Some? ==> r.value <= buf.Length && buf[..r.value] == From(file.content, old(file.position), buf.Length)
    ensures r.Some? ==> file.position == old(file.position) + r.value
    ensures file.failures == old(file.failures) + if r.None? then 1 else 0
  {
    ghost var start := file.position;
    var filled: nat := 0;
    while filled < buf.Length
      invariant filled <= buf.Length && file.position == start + filled && file.failures == old(file.failures)
      invariant start + filled <= |file.content| || filled == 0
      invariant filled > 0 ==> buf[..filled] == file.content[start..start + filled]
      decreases buf.Length - filled
    {
      var before := filled;
      var n := file.Read(buf, filled);
      if n.None? {
        return None;
      }
      if n.value == 0 {
        break;
      }
      filled := filled + n.value;
      assert buf[..filled] == buf[..before] + buf[before..filled];
      assert file.content[start..start + filled]
          == file.content[start..start + before] + file.content[start + before..start + filled];
    }
    return Some(filled);
  }

  /** Seeking to a part's offset and filling a buffer of the chunk size reads that chunk. */
  method ReadChunk(file: InputFile, buf: array<byte>, index: nat) returns (r: Option<nat>)
    requires buf.Length >= 1
    modifies file, buf
    ensures r.Some? ==> r.value <= buf.Length && buf[..r.value] == Chunk(file.content, buf.Length, index)
    ensures file.failures == old(file.failures) + if r.None? then 1 else 0
  {
    file.Seek(index * buf.Length);
    r := FillChunk(file, buf);
  }

  /** An open output file; a positioned write takes any part of the buffer, perhaps nothing,
      or fails. */
  class OutputFile {
    var bytes: seq<byte>
    /** How many writes have failed or taken nothing of something. */
    ghost var refusals: nat

    constructor ()
      ensures bytes == [] && refusals == 0
    {
      bytes, refusals := [], 0;
    }

    method SeekWrite(buf: seq<byte>, offset: nat) returns (n: Option<nat>)
      modifies this
      ensures refusals == old(refusals) + if n == None || (n == Some(0) && buf != []) then 1 else 0
      ensures n.None? ==> bytes == old(bytes)
      ensures n.Some? ==> n.value <= |buf| && bytes == D.WriteAt(old(bytes), offset, buf[..n.value])
    {
      var fails: bool := *;
      if fails {
        refusals := refusals + 1;
        return None;
      }
      var k: nat :| k <= |buf|;
      refusals := refusals + if k == 0 && buf != [] then 1 else 0;
      bytes := D.WriteAt(bytes, offset, buf[..k]);
      return Some(k);
    }
  }

  /** Two writes end to end are one. */
  lemma WritesJoin(file: seq<byte>, offset: nat, a: seq<byte>, b: seq<byte>)
    ensures D.WriteAt(D.WriteAt(file, offset, a), offset + |a|, b) == D.WriteAt(file, offset, a + b)
  {
    if a == [] {
      assert a + b == b;
    } else if b == [] {
      assert a + b == a;
    }
  }

  /** The file with the first `k` bytes of a write done. */
  function Torn(file: seq<byte>, offset: nat, data: seq<byte>, k: nat): seq<byte>
    requires k <= |data|
  {
    D.WriteAt(file, offset, data[..k])
  }

  lemma TornFurther(file: seq<byte>, offset: nat, data: seq<byte>, k: nat, n: nat)
    requires k + n <= |data|
    ensures D.WriteAt(Torn(file, offset, data, k), offset + k, data[k..][..n]) == Torn(file, offset, data, k + n)
  {
    WritesJoin(file, offset, data[..k], data[k..][..n]);
    assert data[..k] + data[k..][..n] == data[..k + n];
  }

  lemma TornEnds(file: seq<byte>, offset: nat, data: seq<byte>)
    ensures Torn(file, offset, data, 0) == file && Torn(file, offset, data, |data|) == D.WriteAt(file, offset, data)
  {
    assert data[..|data|] == data;
  }

  /** However the writes come out short, a write that succeeds is one whole positioned
      write, and one that fails has written a prefix of its buffer and nothing else; it fails
      exactly if a write failed or took nothing. */
  method WritePlaintextAt(file: OutputFile, data: seq<byte>, offset: nat) returns (ok: bool, ghost torn: nat)
    modifies file
    ensures ok ==> file.bytes == D.WriteAt(old(file.bytes), offset, data)
    ensures torn <= |data| && file.bytes == Torn(old(file.bytes), offset, data, torn)
    ensures file.refusals == old(file.refusals) + if ok then 0 else 1
  {
    hide Torn, D.WriteAt;
    ghost var before := file.bytes;
    TornEnds(before, offset, data);
    var done: nat := 0;
    torn := 0;
    while done < |data|
      invariant done == torn <= |data| && file.bytes == Torn(before, offset, data, done)
      invariant file.refusals == old(file.refusals)
      decreases |data| - done
    {
      var n := file.SeekWrite(data[done..], offset + done);
      if n.None? || n.value == 0 {
        assert n.Some? ==> file.bytes == D.WriteAt(Torn(before, offset, data, done), offset + done, data[done..][..0]);
        TornFurther(before, offset, data, done, 0);
        return false, torn;
      }
      TornFurther(before, offset, data, done, n.value);
      done := done + n.value;
      torn := done;
    }
    return true, torn;
  }
}
