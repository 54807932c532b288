/** Transparency-log entries (crypto/src/translog.rs): the canonical bytes an entry
    hash covers, and what two equal hashes say about the entries. */
module Translog {
  import opened Hashing
  import opened Encoding

  datatype Purpose = Epoch | Signing | Kem | SigningPq | KemPq

  function PurposeByte(p: Purpose): (b: byte)
    ensures b == 0 <==> p == Epoch
  {
    match p
    case Epoch => 0x00
    case Signing => 0x01
    case Kem => 0x02
    case SigningPq => 0x03
    case KemPq => 0x04
  }

  const UUID_LEN: nat := 16
  const INDEX_LEN: nat := 64

  /** A version 2 entry names its account by id, a version 3 entry by VRF index. */
  datatype Version = V2 | V3

  function VersionByte(v: Version): byte {
    if v == V2 then 0x02 else 0x03
  }

  function AccountLen(v: Version): nat {
    if v == V2 then UUID_LEN else INDEX_LEN
  }

  datatype Entry = Entry(
    version: Version,
    id: nat,
    account: Option<seq<byte>>,
    purpose: Purpose,
    algorithm: seq<byte>,
    publicKey: seq<byte>,
    createdAt: nat,
    prev: Digest)
  {
    /** The widths of the source's own types. */
    predicate Valid() {
      && id < U64_SPAN && createdAt < U64_SPAN
      && |algorithm| < U32_SPAN && |publicKey| < U32_SPAN
      && (account.Some? ==> |account.value| == AccountLen(version))
    }

    function AccountBytes(): seq<byte> {
      if account.Some? then account.value else Zeros(AccountLen(version))
    }

    /** An account of zero bytes hashes as no account at all; this is the entry with
        that one ambiguity settled. */
    function Normal(): Entry {
      if account == Some(Zeros(AccountLen(version))) then this.(account := None) else this
    }
  }

  function CanonicalBytes(e: Entry): seq<byte> {
    [VersionByte(e.version)] + (BigEndian(8, e.id) + (e.AccountBytes() + ([PurposeByte(e.purpose)]
      + (LengthPrefixed(e.algorithm) + (LengthPrefixed(e.publicKey) + BigEndian(8, e.createdAt))))))
  }

  function EntryHash(e: Entry): Digest {
    Sha256(Bytes(CanonicalBytes(e)) + [Embed(e.prev)])
  }

  lemma BytesInjective(s: seq<byte>, t: seq<byte>)
    requires Bytes(s) == Bytes(t)
    ensures s == t
  {
    assert |s| == |t|;
    forall i | 0 <= i < |s| ensures s[i] == t[i] {
      assert Bytes(s)[i] == Raw(s[i]);
      assert Bytes(t)[i] == Raw(t[i]);
    }
  }

  /** The canonical bytes determine every field, the account up to zero bytes. */
  lemma CanonicalBytesDetermine(a: Entry, b: Entry)
    requires a.Valid() && b.Valid() && CanonicalBytes(a) == CanonicalBytes(b)
    ensures a.Normal().(prev := b.prev) == b.Normal()
  {
    hide BigEndian, LengthPrefixed, Zeros, Pow256;
    var ta := LengthPrefixed(a.algorithm) + (LengthPrefixed(a.publicKey) + BigEndian(8, a.createdAt));
    var tb := LengthPrefixed(b.algorithm) + (LengthPrefixed(b.publicKey) + BigEndian(8, b.createdAt));
    var pa, pb := [PurposeByte(a.purpose)] + ta, [PurposeByte(b.purpose)] + tb;
    var ia, ib := a.AccountBytes() + pa, b.AccountBytes() + pb;
    SplitEqual([VersionByte(a.version)], BigEndian(8, a.id) + ia, [VersionByte(b.version)], BigEndian(8, b.id) + ib);
    assert [VersionByte(a.version)][0] == [VersionByte(b.version)][0];
    SplitEqual(BigEndian(8, a.id), ia, BigEndian(8, b.id), ib);
    SplitEqual(a.AccountBytes(), pa, b.AccountBytes(), pb);
    SplitEqual([PurposeByte(a.purpose)], ta, [PurposeByte(b.purpose)], tb);
    assert [PurposeByte(a.purpose)][0] == [PurposeByte(b.purpose)][0];
    LengthPrefixIsPrefixFree(a.algorithm, LengthPrefixed(a.publicKey) + BigEndian(8, a.createdAt),
                             b.algorithm, LengthPrefixed(b.publicKey) + BigEndian(8, b.createdAt));
    LengthPrefixIsPrefixFree(a.publicKey, BigEndian(8, a.createdAt), b.publicKey, BigEndian(8, b.createdAt));
    BigEndianInjective(8, a.id, b.id);
    BigEndianInjective(8, a.createdAt, b.createdAt);
    Pow256Values();
  }

  /** Two entries share a hash exactly when they are the same entry, an account of zero
      bytes counting as none. */
  lemma EntryHashIsExact(a: Entry, b: Entry)
    requires a.Valid() && b.Valid()
    ensures EntryHash(a) == EntryHash(b) <==> a.Normal() == b.Normal()
  {
    hide CanonicalBytes;
    if EntryHash(a) == EntryHash(b) {
      var pa, pb := EntryHash(a).preimage, EntryHash(b).preimage;
      assert pa[|pa| - 1] == Embed(a.prev) && pb[|pb| - 1] == Embed(b.prev);
      assert pa[..|pa| - 1] == Bytes(CanonicalBytes(a)) && pb[..|pb| - 1] == Bytes(CanonicalBytes(b));
      BytesInjective(CanonicalBytes(a), CanonicalBytes(b));
      CanonicalBytesDetermine(a, b);
    }
    if a.Normal() == b.Normal() {
      NormalHashesTheSame(a);
      NormalHashesTheSame(b);
    }
  }

  lemma NormalHashesTheSame(e: Entry)
    ensures EntryHash(e.Normal()) == EntryHash(e)
  {
    assert CanonicalBytes(e.Normal()) == CanonicalBytes(e);
  }

  /** The ambiguity is real: an entry with no account and one whose index is all zeros
      are different entries under one hash. */
  lemma ZeroIndexCollides(e: Entry)
    requires e.Valid() && e.account == None
    ensures var z := e.(account := Some(Zeros(AccountLen(e.version))));
            z.Valid() && z != e && EntryHash(z) == EntryHash(e)
  {
    NormalHashesTheSame(e.(account := Some(Zeros(AccountLen(e.version)))));
  }
}
