/** SHA-256 as an ideal hash: a digest is the term that produced it, so two digests
    are equal exactly when their preimages are. A preimage is a string of raw bytes
    and embedded 32-byte digests; `Opaque` stands for a 32-byte string that is the
    hash of nothing. */
module Hashing {
  type byte = x: int | 0 <= x < 256

  datatype Option<+T> = None | Some(value: T)

  datatype Atom = Raw(b: byte) | Embed(digest: Digest)

  datatype Digest = Sha256(preimage: seq<Atom>) | Opaque(id: nat)

  function Bytes(s: seq<byte>): (atoms: seq<Atom>)
    ensures |atoms| == |s|
    ensures forall i :: 0 <= i < |s| ==> atoms[i] == Raw(s[i])
  {
    seq(|s|, i requires 0 <= i < |s| => Raw(s[i]))
  }

  const LEAF_PREFIX: byte := 0x00
  const INTERNAL_PREFIX: byte := 0x01

  function LeafHash(entryHash: Digest): Digest {
    Sha256([Raw(LEAF_PREFIX), Embed(entryHash)])
  }

  function NodeHash(left: Digest, right: Digest): (d: Digest)
    ensures IsNode(d) && Left(d) == left && Right(d) == right
  {
    Sha256([Raw(INTERNAL_PREFIX), Embed(left), Embed(right)])
  }

  function EmptyHash(): Digest {
    Sha256([])
  }

  /** The digests that are internal nodes, and their two children. */
  predicate IsNode(d: Digest) {
    && d.Sha256?
    && |d.preimage| == 3
    && d.preimage[0] == Raw(INTERNAL_PREFIX)
    && d.preimage[1].Embed?
    && d.preimage[2].Embed?
  }

  function Left(d: Digest): Digest
    requires IsNode(d)
  {
    d.preimage[1].digest
  }

  function Right(d: Digest): Digest
    requires IsNode(d)
  {
    d.preimage[2].digest
  }

  /** An internal node is the hash of its own two children and of nothing else. */
  lemma NodeParts(d: Digest)
    requires IsNode(d)
    ensures d == NodeHash(Left(d), Right(d))
    ensures forall l, r :: NodeHash(l, r) == d ==> l == Left(d) && r == Right(d)
  {
    assert d.preimage == [Raw(INTERNAL_PREFIX), Embed(Left(d)), Embed(Right(d))];
    forall l, r | NodeHash(l, r) == d
      ensures l == Left(d) && r == Right(d)
    {
      assert NodeHash(l, r).preimage[1] == Embed(l);
      assert NodeHash(l, r).preimage[2] == Embed(r);
    }
  }

  lemma LeafHashInjective(a: Digest, b: Digest)
    requires LeafHash(a) == LeafHash(b)
    ensures a == b
  {
    assert LeafHash(a).preimage[1] == Embed(a);
    assert LeafHash(b).preimage[1] == Embed(b);
  }
}
