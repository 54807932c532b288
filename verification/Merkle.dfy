/** The RFC 6962 hash tree (crypto/src/merkle.rs): roots, inclusion proofs and
    consistency proofs, and the bit-walking verifiers of RFC 9162.

    The verifiers never see a tree, only sizes, sibling hashes and roots. Their
    meaning is given by `Open`, which descends from a root hash to one position. */
module Merkle {
  import opened Hashing

  // ---- tree shape ----------------------------------------------------------

  predicate IsPowerOfTwo(k: nat) {
    k == 1 || (k > 1 && k % 2 == 0 && IsPowerOfTwo(k / 2))
  }

  /** The RFC 6962 split of `n` leaves, one level at a time. */
  function Split(n: nat): (k: nat)
    requires n >= 2
    ensures IsPowerOfTwo(k) && k < n <= 2 * k
  {
    if n == 2 then 1 else 2 * Split((n + 1) / 2)
  }

  lemma SplitHalves(n: nat)
    requires n > 2
    ensures Split(n) == 2 * Split((n + 1) / 2)
  {
  }

  /** Nothing but `Split(n)` is a power of two below `n` whose double reaches `n`. */
  lemma {:induction false} SplitIsLargest(n: nat, k: nat)
    requires n >= 2 && IsPowerOfTwo(k) && k < n
    ensures k <= Split(n)
    ensures n <= 2 * k ==> k == Split(n)
    decreases n
  {
    if n > 2 && k > 1 {
      SplitIsLargest((n + 1) / 2, k / 2);
    }
  }

  method SplitPoint(n: nat) returns (k: nat)
    requires n >= 2
    ensures IsPowerOfTwo(k) && k < n
    ensures forall p: nat :: IsPowerOfTwo(p) && p < n ==> p <= k
    ensures k == Split(n)
  {
    k := 1;
    while 2 * k < n
      invariant IsPowerOfTwo(k) && k < n
      decreases n - k
    {
      k := 2 * k;
    }
    forall p: nat | IsPowerOfTwo(p) && p < n ensures p <= Split(n) {
      SplitIsLargest(n, p);
    }
    SplitIsLargest(n, k);
  }

  // ---- construction --------------------------------------------------------

  /** The Merkle Tree Hash of a non-empty list of entry hashes. */
  function Mth(entries: seq<Digest>): Digest
    requires |entries| >= 1
    decreases |entries|
  {
    if |entries| == 1 then
      LeafHash(entries[0])
    else
      var k := Split(|entries|);
      NodeHash(Mth(entries[..k]), Mth(entries[k..]))
  }

  function MerkleRoot(entries: seq<Digest>): Digest {
    if entries == [] then EmptyHash() else Mth(entries)
  }

  function InclusionProof(entries: seq<Digest>, index: nat): seq<Digest>
    requires index < |entries|
    decreases |entries|
  {
    if |entries| == 1 then
      []
    else
      var k := Split(|entries|);
      if index < k then
        InclusionProof(entries[..k], index) + [Mth(entries[k..])]
      else
        InclusionProof(entries[k..], index - k) + [Mth(entries[..k])]
  }

  /** RFC 6962 SUBPROOF: `known` marks a subtree whose root the verifier already has. */
  function Subproof(m: nat, entries: seq<Digest>, known: bool): seq<Digest>
    requires 1 <= m <= |entries|
    decreases |entries|
  {
    if m == |entries| then
      if known then [] else [Mth(entries)]
    else
      var k := Split(|entries|);
      if m <= k then
        Subproof(m, entries[..k], known) + [Mth(entries[k..])]
      else
        Subproof(m - k, entries[k..], false) + [Mth(entries[..k])]
  }

  function ConsistencyProof(entries: seq<Digest>, m: nat): seq<Digest>
    requires 0 < m < |entries|
  {
    Subproof(m, entries, true)
  }

  // ---- the meaning of a root: what it commits to at each position ----------

  datatype Opening = Opening(leaf: Digest, siblings: seq<Digest>)

  /** Descend from `root`, read as the root of `n` leaves, to leaf `i`; the siblings
      passed on the way, deepest first. `None` when a hash on the way is not a node. */
  function Open(root: Digest, n: nat, i: nat): Option<Opening>
    requires i < n
    decreases n
  {
    if n == 1 then
      Some(Opening(root, []))
    else if !IsNode(root) then
      None
    else
      var k := Split(n);
      if i < k then
        Beside(Open(Left(root), k, i), Right(root))
      else
        Beside(Open(Right(root), n - k, i - k), Left(root))
  }

  lemma OpenOne(root: Digest)
    ensures Open(root, 1, 0) == Some(Opening(root, []))
  {
  }

  function Beside(o: Option<Opening>, sibling: Digest): Option<Opening> {
    match o
    case None => None
    case Some(x) => Some(Opening(x.leaf, x.siblings + [sibling]))
  }

  /** The leaf hash `root` commits to at position `i` of `n`, if any. */
  function LeafAt(root: Digest, n: nat, i: nat): Option<Digest>
    requires i < n
  {
    match Open(root, n, i)
    case None => None
    case Some(x) => Some(x.leaf)
  }

  /** A built tree opens at every position to the entry there, along its audit path. */
  lemma {:induction false} RootOpens(entries: seq<Digest>, i: nat)
    requires i < |entries|
    ensures Open(MerkleRoot(entries), |entries|, i)
         == Some(Opening(LeafHash(entries[i]), InclusionProof(entries, i)))
    decreases |entries|
  {
    hide IsNode, Left, Right, NodeHash, LeafHash, Split;
    if |entries| > 1 {
      var k := Split(|entries|);
      if i < k {
        RootOpens(entries[..k], i);
      } else {
        RootOpens(entries[k..], i - k);
      }
    }
  }

  /** The root of a log determines the log: entries, order and length. */
  lemma {:induction false} RootDeterminesLog(a: seq<Digest>, b: seq<Digest>)
    requires MerkleRoot(a) == MerkleRoot(b)
    ensures a == b
    decreases |a|
  {
    if |a| == 0 || |b| == 0 {
      RootLength(a);
      RootLength(b);
    } else {
      RootLength(a);
      RootLength(b);
      forall i | 0 <= i < |a| ensures a[i] == b[i] {
        RootOpens(a, i);
        RootOpens(b, i);
        LeafHashInjective(a[i], b[i]);
      }
    }
  }

  /** The number of leaf hashes at the bottom of a digest read as a tree. */
  function LeafCount(d: Digest): nat {
    if d == EmptyHash() then 0
    else if IsNode(d) then LeafCount(Left(d)) + LeafCount(Right(d))
    else 1
  }

  lemma {:induction false} RootLength(entries: seq<Digest>)
    ensures LeafCount(MerkleRoot(entries)) == |entries|
    decreases |entries|
  {
    if |entries| == 1 {
      assert LeafHash(entries[0]).preimage != [];
    } else if |entries| > 1 {
      var k := Split(|entries|);
      NodeParts(Mth(entries));
      assert Mth(entries).preimage != [];
      RootLength(entries[..k]);
      RootLength(entries[k..]);
    }
  }

  // ---- one level of the tree at a time -------------------------------------

  /** What an opening at one level says about the level of `n` nodes below it. */
  function Lower(o: Option<Opening>, n: nat, i: nat): Option<Opening>
    requires i < n
  {
    if o.None? || (i % 2 == 0 && i == n - 1) then
      o
    else
      var x := o.value.leaf;
      if !IsNode(x) then None
      else if i % 2 == 0 then Some(Opening(Left(x), [Right(x)] + o.value.siblings))
      else Some(Opening(Right(x), [Left(x)] + o.value.siblings))
  }

  /** Reading a root as `n` nodes is reading it as the pairs of them, an odd last node
      standing alone, and then opening one pair. */
  lemma {:induction false} OpenByPairs(root: Digest, n: nat, i: nat)
    requires n >= 2 && i < n
    ensures Open(root, n, i) == Lower(Open(root, (n + 1) / 2, i / 2), n, i)
    decreases n
  {
    hide Open, Lower, Split, IsNode, Left, Right;
    if n == 2 {
      OpenOne(root);
      OpenTwo(root, i);
    } else if IsNode(root) {
      var k, h, j := Split(n), (n + 1) / 2, i / 2;
      SplitHalves(n);
      if i < k {
        OpenByPairs(Left(root), k, i);
        OpenLeftPairs(root, n, i, h, j);
      } else {
        if n - k > 1 {
          OpenByPairs(Right(root), n - k, i - k);
        }
        OpenRightPairs(root, n, i, h, j);
      }
    } else {
      NoPairs(root, n, i);
    }
  }

  lemma NoPairs(root: Digest, n: nat, i: nat)
    requires n > 2 && i < n && !IsNode(root)
    ensures Open(root, n, i) == Lower(Open(root, (n + 1) / 2, i / 2), n, i)
  {
  }

  lemma OpenTwo(root: Digest, i: nat)
    requires i < 2
    ensures Open(root, 2, i) == Lower(Some(Opening(root, [])), 2, i)
  {
    if IsNode(root) {
      assert [] + [Left(root)] == [Left(root)] + [];
      assert [] + [Right(root)] == [Right(root)] + [];
    }
  }

  lemma OpenLeftPairs(root: Digest, n: nat, i: nat, h: nat, j: nat)
    requires n > 2 && h == (n + 1) / 2 && j == i / 2 && IsNode(root)
    requires i < Split(n)
    requires Open(Left(root), Split(n), i) == Lower(Open(Left(root), Split(h), j), Split(n), i)
    ensures Open(root, n, i) == Lower(Open(root, h, j), n, i)
  {
    LowerBeside(Open(Left(root), Split(h), j), Right(root), Split(n), i, n, i);
  }

  lemma OpenRightPairs(root: Digest, n: nat, i: nat, h: nat, j: nat)
    requires n > 2 && h == (n + 1) / 2 && j == i / 2 && IsNode(root)
    requires Split(n) <= i < n
    requires n - Split(n) == 1
          || Open(Right(root), n - Split(n), i - Split(n))
             == Lower(Open(Right(root), (n - Split(n) + 1) / 2, (i - Split(n)) / 2), n - Split(n), i - Split(n))
    ensures Open(root, n, i) == Lower(Open(root, h, j), n, i)
  {
    hide Split, Open, IsNode, Left, Right;
    var k, k2 := Split(n), Split(h);
    SplitHalves(n);
    OpenRight(root, n, i);
    OpenRight(root, h, j);
    if n - k == 1 {
      assert h - k2 == 1 && i == k && j == k2;
      OpenOne(Right(root));
    } else {
      assert (n - k + 1) / 2 == h - k2 && (i - k) / 2 == j - k2;
      LowerBeside(Open(Right(root), h - k2, j - k2), Left(root), n - k, i - k, n, i);
    }
  }

  lemma OpenRight(root: Digest, n: nat, i: nat)
    requires n >= 2 && IsNode(root) && Split(n) <= i < n
    ensures Open(root, n, i) == Beside(Open(Right(root), n - Split(n), i - Split(n)), Left(root))
  {
  }

  lemma LowerBeside(o: Option<Opening>, sibling: Digest, n: nat, i: nat, n': nat, i': nat)
    requires i < n && i' < n' && i % 2 == i' % 2
    requires i % 2 == 0 ==> (i == n - 1 <==> i' == n' - 1)
    ensures Beside(Lower(o, n, i), sibling) == Lower(Beside(o, sibling), n', i')
  {
    if o.Some? && IsNode(o.value.leaf) {
      var x := o.value.leaf;
      assert ([Right(x)] + o.value.siblings) + [sibling] == [Right(x)] + (o.value.siblings + [sibling]);
      assert ([Left(x)] + o.value.siblings) + [sibling] == [Left(x)] + (o.value.siblings + [sibling]);
    }
  }

  // ---- inclusion -----------------------------------------------------------

  /** The verifier's walk, one level a call: `f` is the position and `s` the last
      position at this level. */
  function Climb(f: nat, s: nat, r: Digest, proof: seq<Digest>): Option<Digest>
    requires f <= s
    decreases s
  {
    if s == 0 then
      if proof == [] then Some(r) else None
    else if f % 2 == 0 && f == s then
      Climb(f / 2, s / 2, r, proof)
    else if proof == [] then
      None
    else if f % 2 == 1 then
      Climb(f / 2, s / 2, NodeHash(proof[0], r), proof[1..])
    else
      Climb(f / 2, s / 2, NodeHash(r, proof[0]), proof[1..])
  }

  /** With no sibling left and a level still to climb, the walk fails. */
  lemma {:induction false} ClimbStops(f: nat, s: nat, r: Digest)
    requires f <= s && 0 < s
    ensures Climb(f, s, r, []) == None
    decreases s
  {
    if f % 2 == 0 && f == s {
      ClimbStops(f / 2, s / 2, r);
    }
  }

  lemma {:induction false} ClimbIsOpen(f: nat, s: nat, r: Digest, proof: seq<Digest>, root: Digest)
    requires f <= s
    ensures Climb(f, s, r, proof) == Some(root) <==> Open(root, s + 1, f) == Some(Opening(r, proof))
    decreases s
  {
    hide Open;
    if s == 0 {
      OpenOne(root);
    } else {
      assert (s + 1 + 1) / 2 == s / 2 + 1;
      OpenByPairs(root, s + 1, f);
      if f % 2 == 0 && f == s {
        ClimbIsOpen(f / 2, s / 2, r, proof, root);
      } else {
        LowerPair(Open(root, s / 2 + 1, f / 2), s + 1, f, r, proof);
        if proof != [] {
          ClimbIsOpen(f / 2, s / 2, Parent(f, r, proof[0]), proof[1..], root);
        }
      }
    }
  }

  /** The parent of position `f` and its sibling. */
  function Parent(f: nat, r: Digest, sibling: Digest): Digest {
    if f % 2 == 1 then NodeHash(sibling, r) else NodeHash(r, sibling)
  }

  /** A paired position opens to `r` by `proof` exactly when the pair above opens to
      their parent by the rest of `proof`. */
  lemma LowerPair(up: Option<Opening>, n: nat, i: nat, r: Digest, proof: seq<Digest>)
    requires i < n && !(i % 2 == 0 && i == n - 1)
    ensures Lower(up, n, i) == Some(Opening(r, proof))
       <==> proof != [] && up == Some(Opening(Parent(i, r, proof[0]), proof[1..]))
  {
    if up.Some? && IsNode(up.value.leaf) {
      NodeParts(up.value.leaf);
      var x := if i % 2 == 0 then Right(up.value.leaf) else Left(up.value.leaf);
      assert ([x] + up.value.siblings)[1..] == up.value.siblings;
    }
    if proof != [] {
      NodeParts(Parent(i, r, proof[0]));
      assert proof == [proof[0]] + proof[1..];
    }
  }

  /** RFC 9162 section 2.1.3.2. */
  method VerifyInclusion(entryHash: Digest, index: nat, treeSize: nat, proof: seq<Digest>, root: Digest)
    returns (ok: bool)
    // Whatever `root` is: accepted exactly when it commits to this entry here, by this path.
    ensures ok <==> index < treeSize && Open(root, treeSize, index) == Some(Opening(LeafHash(entryHash), proof))
    // Against the root of a real log: exactly that log's entry and that log's proof.
    ensures forall log | |log| == treeSize && MerkleRoot(log) == root ::
              ok <==> index < treeSize && log[index] == entryHash && proof == InclusionProof(log, index)
  {
    hide Open, LeafAt, Mth, MerkleRoot, InclusionProof, NodeHash, Split, Climb;
    if index >= treeSize {
      return false;
    }
    var fnode: nat, snode: nat := index, treeSize - 1;
    var r, j := LeafHash(entryHash), 0;
    ghost var walk := Climb(fnode, snode, r, proof);
    assert proof[0..] == proof;
    while j < |proof|
      invariant 0 <= j <= |proof| && fnode <= snode
      invariant Climb(fnode, snode, r, proof[j..]) == walk
    {
      ClimbStep(fnode, snode, r, proof, j);
      if snode == 0 {
        ClimbIsOpen(index, treeSize - 1, LeafHash(entryHash), proof, root);
        InclusionOnLogs(entryHash, index, treeSize, proof, root);
        return false;
      }
      var p := proof[j];
      if fnode % 2 == 1 || fnode == snode {
        ghost var below := r;
        r := NodeHash(p, r);
        if fnode % 2 == 0 {
          fnode, snode := fnode / 2, snode / 2;
          while fnode % 2 == 0 && fnode != 0
            invariant fnode == snode && fnode > 0
            invariant Climb(fnode, snode, below, proof[j..]) == walk
          {
            ClimbStep(fnode, snode, below, proof, j);
            fnode, snode := fnode / 2, snode / 2;
          }
          ClimbStep(fnode, snode, below, proof, j);
        }
      } else {
        r := NodeHash(r, p);
      }
      fnode, snode := fnode / 2, snode / 2;
      j := j + 1;
    }
    ok := snode == 0 && r == root;
    assert proof[j..] == [];
    if snode > 0 {
      ClimbStops(fnode, snode, r);
    } else {
      ClimbEnds(r);
    }
    ClimbIsOpen(index, treeSize - 1, LeafHash(entryHash), proof, root);
    InclusionOnLogs(entryHash, index, treeSize, proof, root);
  }

  /** One unfolding of the walk. */
  lemma ClimbStep(f: nat, s: nat, r: Digest, proof: seq<Digest>, j: nat)
    requires f <= s && j < |proof|
    ensures Climb(f, s, r, proof[j..])
         == if s == 0 then None
            else if f % 2 == 1 then Climb(f / 2, s / 2, NodeHash(proof[j], r), proof[j + 1..])
            else if f == s then Climb(f / 2, s / 2, r, proof[j..])
            else Climb(f / 2, s / 2, NodeHash(r, proof[j]), proof[j + 1..])
  {
    assert proof[j..][1..] == proof[j + 1..];
  }

  lemma ClimbEnds(r: Digest)
    ensures Climb(0, 0, r, []) == Some(r)
  {
  }

  lemma InclusionOnLogs(entryHash: Digest, index: nat, treeSize: nat, proof: seq<Digest>, root: Digest)
    requires index < treeSize
    ensures forall log | |log| == treeSize && MerkleRoot(log) == root ::
              Open(root, treeSize, index) == Some(Opening(LeafHash(entryHash), proof))
              <==> log[index] == entryHash && proof == InclusionProof(log, index)
  {
    forall log | |log| == treeSize && MerkleRoot(log) == root
      ensures Open(root, treeSize, index) == Some(Opening(LeafHash(entryHash), proof))
              <==> log[index] == entryHash && proof == InclusionProof(log, index)
    {
      RootOpens(log, index);
      if LeafHash(entryHash) == LeafHash(log[index]) {
        LeafHashInjective(entryHash, log[index]);
      }
    }
  }

  // ---- consistency ---------------------------------------------------------

  /** The two-root walk: `fr` climbs the older tree along its last position `f`, `sr`
      the newer tree, whose last position is `s`. */
  function ClimbBoth(f: nat, s: nat, fr: Digest, sr: Digest, proof: seq<Digest>): Option<(Digest, Digest)>
    requires f <= s
    decreases s
  {
    if s == 0 then
      if proof == [] then Some((fr, sr)) else None
    else if f % 2 == 0 && f == s then
      ClimbBoth(f / 2, s / 2, fr, sr, proof)
    else if proof == [] then
      None
    else if f % 2 == 1 then
      ClimbBoth(f / 2, s / 2, NodeHash(proof[0], fr), NodeHash(proof[0], sr), proof[1..])
    else
      ClimbBoth(f / 2, s / 2, fr, NodeHash(sr, proof[0]), proof[1..])
  }

  /** The newer half of the two-root walk is the inclusion walk. */
  lemma {:induction false} NewerClimbs(f: nat, s: nat, fr: Digest, sr: Digest, proof: seq<Digest>)
    requires f <= s
    ensures match ClimbBoth(f, s, fr, sr, proof)
            case None => Climb(f, s, sr, proof) == None
            case Some(roots) => Climb(f, s, sr, proof) == Some(roots.1)
    decreases s
  {
    if s == 0 {
    } else if f % 2 == 0 && f == s {
      NewerClimbs(f / 2, s / 2, fr, sr, proof);
    } else if proof == [] {
    } else if f % 2 == 1 {
      NewerClimbs(f / 2, s / 2, NodeHash(proof[0], fr), NodeHash(proof[0], sr), proof[1..]);
    } else {
      NewerClimbs(f / 2, s / 2, fr, NodeHash(sr, proof[0]), proof[1..]);
    }
  }

  /** Two roots, of trees of `m` and `n` leaves, commit to the same first `t` leaves. */
  ghost predicate Agree(first: Digest, m: nat, second: Digest, n: nat, t: nat)
    requires t <= m <= n
  {
    forall j :: 0 <= j < t ==> LeafAt(first, m, j) == LeafAt(second, n, j)
  }

  lemma LeafByPairs(root: Digest, n: nat, i: nat)
    requires n >= 2 && i < n
    ensures var up := LeafAt(root, (n + 1) / 2, i / 2);
            LeafAt(root, n, i)
            == if up.None? || (i % 2 == 0 && i == n - 1) then up
               else if !IsNode(up.value) then None
               else if i % 2 == 0 then Some(Left(up.value)) else Some(Right(up.value))
  {
    OpenByPairs(root, n, i);
  }

  /** Agreement on whole pairs is agreement on their members. */
  lemma AgreeDown(first: Digest, m: nat, second: Digest, n: nat, t: nat)
    requires 2 <= m <= n && t % 2 == 0 && t <= m
    requires Agree(first, (m + 1) / 2, second, (n + 1) / 2, t / 2)
    ensures Agree(first, m, second, n, t)
  {
    hide Open;
    forall j | 0 <= j < t ensures LeafAt(first, m, j) == LeafAt(second, n, j) {
      LeafByPairs(first, m, j);
      LeafByPairs(second, n, j);
    }
  }

  /** Every leaf of a tree of `n` leaves is there to be opened. */
  ghost predicate Whole(root: Digest, n: nat) {
    forall j :: 0 <= j < n ==> LeafAt(root, n, j).Some?
  }

  /** And the reverse, where the older tree is whole. */
  lemma AgreeUp(first: Digest, m: nat, second: Digest, n: nat, t: nat)
    requires 2 <= m <= n && t % 2 == 0 && t <= m
    requires Agree(first, m, second, n, t) && Whole(first, m)
    ensures Agree(first, (m + 1) / 2, second, (n + 1) / 2, t / 2)
  {
    hide Open;
    forall j {:trigger LeafAt(first, (m + 1) / 2, j)} | 0 <= j < t / 2
      ensures LeafAt(first, (m + 1) / 2, j) == LeafAt(second, (n + 1) / 2, j)
    {
      PairFromMembers(first, m, j);
      PairFromMembers(second, n, j);
    }
  }

  lemma PairFromMembers(root: Digest, n: nat, j: nat)
    requires 2 * j + 1 < n
    requires LeafAt(root, n, 2 * j).Some? && LeafAt(root, n, 2 * j + 1).Some?
    ensures LeafAt(root, (n + 1) / 2, j)
         == Some(NodeHash(LeafAt(root, n, 2 * j).value, LeafAt(root, n, 2 * j + 1).value))
  {
    LeafByPairs(root, n, 2 * j);
    LeafByPairs(root, n, 2 * j + 1);
    NodeParts(LeafAt(root, (n + 1) / 2, j).value);
  }

  lemma WholeUp(root: Digest, n: nat)
    requires n >= 2 && Whole(root, n)
    ensures Whole(root, (n + 1) / 2)
  {
    forall j {:trigger LeafAt(root, (n + 1) / 2, j)} | 0 <= j < (n + 1) / 2
      ensures LeafAt(root, (n + 1) / 2, j).Some?
    {
      LeafByPairs(root, n, 2 * j);
      assert LeafAt(root, n, 2 * j).Some?;
    }
  }

  /** What the two-root walk proves of the roots it reaches. */
  lemma {:induction false} OlderClimbs(f: nat, s: nat, fr: Digest, sr: Digest, proof: seq<Digest>,
                                       first: Digest, second: Digest)
    requires f <= s
    requires ClimbBoth(f, s, fr, sr, proof) == Some((first, second))
    ensures LeafAt(first, f + 1, f) == Some(fr)
    ensures LeafAt(second, s + 1, f) == Some(sr)
    ensures Agree(first, f + 1, second, s + 1, f)
    decreases s
  {
    hide Open, NodeHash, IsNode, Left, Right, Agree;
    if s == 0 {
      OpenOne(first);
      OpenOne(second);
      AgreeOnNothing(first, second);
    } else if f % 2 == 1 {
      var c := proof[0];
      OlderClimbs(f / 2, s / 2, NodeHash(c, fr), NodeHash(c, sr), proof[1..], first, second);
      OddStep(f, s, fr, sr, c, first, second);
    } else if f == s {
      OlderClimbs(f / 2, s / 2, fr, sr, proof, first, second);
      EvenStep(f, s, fr, first, second);
      LeafByPairs(second, s + 1, f);
    } else {
      var up := NodeHash(sr, proof[0]);
      OlderClimbs(f / 2, s / 2, fr, up, proof[1..], first, second);
      EvenStep(f, s, fr, first, second);
      LeafByPairs(second, s + 1, f);
      NodeParts(up);
    }
  }

  lemma AgreeOnNothing(first: Digest, second: Digest)
    ensures Agree(first, 1, second, 1, 0)
  {
  }

  lemma OddStep(f: nat, s: nat, fr: Digest, sr: Digest, c: Digest, first: Digest, second: Digest)
    requires f <= s && f % 2 == 1
    requires LeafAt(first, f / 2 + 1, f / 2) == Some(NodeHash(c, fr))
    requires LeafAt(second, s / 2 + 1, f / 2) == Some(NodeHash(c, sr))
    requires Agree(first, f / 2 + 1, second, s / 2 + 1, f / 2)
    ensures LeafAt(first, f + 1, f) == Some(fr)
    ensures LeafAt(second, s + 1, f) == Some(sr)
    ensures Agree(first, f + 1, second, s + 1, f)
  {
    hide Open;
    NodeParts(NodeHash(c, fr));
    NodeParts(NodeHash(c, sr));
    LeafByPairs(first, f + 1, f);
    LeafByPairs(first, f + 1, f - 1);
    LeafByPairs(second, s + 1, f);
    LeafByPairs(second, s + 1, f - 1);
    AgreeDown(first, f + 1, second, s + 1, f - 1);
  }

  lemma EvenStep(f: nat, s: nat, fr: Digest, first: Digest, second: Digest)
    requires f <= s && f % 2 == 0
    requires LeafAt(first, f / 2 + 1, f / 2) == Some(fr)
    requires Agree(first, f / 2 + 1, second, s / 2 + 1, f / 2)
    ensures LeafAt(first, f + 1, f) == Some(fr)
    ensures Agree(first, f + 1, second, s + 1, f)
  {
    if f > 0 {
      LeafByPairs(first, f + 1, f);
      AgreeDown(first, f + 1, second, s + 1, f);
    }
  }

  /** The walk reaches the roots it should, given the newer tree's own path. */
  lemma {:induction false} OlderIsReached(f: nat, s: nat, fr: Digest, sr: Digest, proof: seq<Digest>,
                                          first: Digest, second: Digest)
    requires f <= s
    requires Whole(first, f + 1) && LeafAt(first, f + 1, f) == Some(fr)
    requires Open(second, s + 1, f) == Some(Opening(sr, proof))
    requires Agree(first, f + 1, second, s + 1, f)
    ensures ClimbBoth(f, s, fr, sr, proof) == Some((first, second))
    decreases s
  {
    hide Open;
    OpenOne(first);
    if s == 0 {
      OpenOne(second);
    } else {
      OpenByPairs(second, s + 1, f);
      if f > 0 {
        WholeUp(first, f + 1);
        LeafByPairs(first, f + 1, f);
        AgreeUp(first, f + 1, second, s + 1, f - f % 2);
      }
      if f % 2 == 0 && f == s {
        OlderIsReached(f / 2, s / 2, fr, sr, proof, first, second);
      } else {
        LowerPair(Open(second, s / 2 + 1, f / 2), s + 1, f, sr, proof);
        if f % 2 == 1 {
          OddPairs(f, s, fr, sr, proof[0], first, second);
          OlderIsReached(f / 2, s / 2, NodeHash(proof[0], fr), NodeHash(proof[0], sr), proof[1..], first, second);
        } else {
          OlderIsReached(f / 2, s / 2, fr, NodeHash(sr, proof[0]), proof[1..], first, second);
        }
      }
    }
  }

  lemma OddPairs(f: nat, s: nat, fr: Digest, sr: Digest, c: Digest, first: Digest, second: Digest)
    requires f <= s && f % 2 == 1
    requires LeafAt(first, f + 1, f) == Some(fr)
    requires LeafAt(second, s / 2 + 1, f / 2) == Some(NodeHash(c, sr))
    requires Agree(first, f + 1, second, s + 1, f)
    ensures LeafAt(first, f / 2 + 1, f / 2) == Some(NodeHash(c, fr))
  {
    hide LeafAt;
    LeafByPairs(second, s + 1, f - 1);
    NodeParts(NodeHash(c, sr));
    PairFromMembers(first, f + 1, f / 2);
  }

  /** The verifier's whole run: the older tree's last position is first brought to an
      even level, and both walks start there from the head of `path`. */
  function Extends(f: nat, s: nat, path: seq<Digest>, first: Digest, second: Digest): bool
    requires f <= s
    decreases f
  {
    if f % 2 == 1 then
      Extends(f / 2, s / 2, path, first, second)
    else
      path != [] && ClimbBoth(f, s, path[0], path[0], path[1..]) == Some((first, second))
  }

  /** Acceptance means the two roots commit to the same first `f + 1` leaves, whatever
      else the roots are. */
  lemma {:induction false} ExtendsAgrees(f: nat, s: nat, path: seq<Digest>, first: Digest, second: Digest)
    requires f <= s && Extends(f, s, path, first, second)
    ensures Agree(first, f + 1, second, s + 1, f + 1)
    decreases f
  {
    hide Open, LeafAt, Agree;
    if f % 2 == 1 {
      ExtendsAgrees(f / 2, s / 2, path, first, second);
      AgreeDown(first, f + 1, second, s + 1, f + 1);
    } else {
      OlderClimbs(f, s, path[0], path[0], path[1..], first, second);
      hide ClimbBoth;
      AgreeOneMore(first, f + 1, second, s + 1, f);
    }
  }

  lemma AgreeOneMore(first: Digest, m: nat, second: Digest, n: nat, t: nat)
    requires t < m <= n && Agree(first, m, second, n, t) && LeafAt(first, m, t) == LeafAt(second, n, t)
    ensures Agree(first, m, second, n, t + 1)
  {
    hide LeafAt;
  }

  /** The path an honest prover must send, read off the newer root. */
  function ExpectedPath(f: nat, s: nat, second: Digest): Option<seq<Digest>>
    requires f <= s
    decreases f
  {
    if f % 2 == 1 then
      ExpectedPath(f / 2, s / 2, second)
    else
      PathOf(Open(second, s + 1, f), false)
  }

  lemma {:induction false} ExtendsExactly(f: nat, s: nat, path: seq<Digest>, first: Digest, second: Digest)
    requires f <= s && Whole(first, f + 1)
    ensures Extends(f, s, path, first, second)
       <==> Agree(first, f + 1, second, s + 1, f + 1) && ExpectedPath(f, s, second) == Some(path)
    decreases f
  {
    hide Open, LeafAt, Agree, Whole, ClimbBoth, Extends, ExpectedPath;
    if f % 2 == 1 {
      OddUnfolds(f, s, path, first, second);
      WholeUp(first, f + 1);
      ExtendsExactly(f / 2, s / 2, path, first, second);
      if Agree(first, f + 1, second, s + 1, f + 1) {
        AgreeUp(first, f + 1, second, s + 1, f + 1);
      } else if Agree(first, f / 2 + 1, second, s / 2 + 1, f / 2 + 1) {
        AgreeDown(first, f + 1, second, s + 1, f + 1);
      }
    } else if Extends(f, s, path, first, second) {
      ExtendsByPath(f, s, path, first, second);
    } else if Agree(first, f + 1, second, s + 1, f + 1) && ExpectedPath(f, s, second) == Some(path) {
      PathExtends(f, s, path, first, second);
    }
  }

  lemma OddUnfolds(f: nat, s: nat, path: seq<Digest>, first: Digest, second: Digest)
    requires f <= s && f % 2 == 1
    ensures Extends(f, s, path, first, second) == Extends(f / 2, s / 2, path, first, second)
    ensures ExpectedPath(f, s, second) == ExpectedPath(f / 2, s / 2, second)
  {
  }

  lemma ExtendsByPath(f: nat, s: nat, path: seq<Digest>, first: Digest, second: Digest)
    requires f <= s && f % 2 == 0 && Extends(f, s, path, first, second)
    ensures Agree(first, f + 1, second, s + 1, f + 1) && ExpectedPath(f, s, second) == Some(path)
  {
    hide Open, LeafAt, Agree, Climb;
    ExtendsAgrees(f, s, path, first, second);
    NewerClimbs(f, s, path[0], path[0], path[1..]);
    hide ClimbBoth;
    ClimbIsOpen(f, s, path[0], path[1..], second);
    assert path == [path[0]] + path[1..];
  }

  lemma PathExtends(f: nat, s: nat, path: seq<Digest>, first: Digest, second: Digest)
    requires f <= s && f % 2 == 0 && Whole(first, f + 1)
    requires Agree(first, f + 1, second, s + 1, f + 1) && ExpectedPath(f, s, second) == Some(path)
    ensures Extends(f, s, path, first, second)
  {
    hide Open;
    var o := Open(second, s + 1, f).value;
    assert LeafAt(first, f + 1, f) == LeafAt(second, s + 1, f);
    assert path[1..] == o.siblings;
    OlderIsReached(f, s, o.leaf, o.leaf, o.siblings, first, second);
  }

  // ---- the prover's recursion is the verifier's path -----------------------

  /** SUBPROOF on a root hash instead of a list of entries. */
  function RootSubproof(m: nat, root: Digest, n: nat, known: bool): Option<seq<Digest>>
    requires 1 <= m <= n
    decreases n
  {
    if m == n then
      Some(if known then [] else [root])
    else if !IsNode(root) then
      None
    else
      var k := Split(n);
      if m <= k then
        Append(RootSubproof(m, Left(root), k, known), Right(root))
      else
        Append(RootSubproof(m - k, Right(root), n - k, false), Left(root))
  }

  function Append(o: Option<seq<Digest>>, d: Digest): Option<seq<Digest>> {
    match o
    case None => None
    case Some(ds) => Some(ds + [d])
  }

  lemma {:induction false} SubproofOfRoot(m: nat, entries: seq<Digest>, known: bool)
    requires 1 <= m <= |entries|
    ensures RootSubproof(m, Mth(entries), |entries|, known) == Some(Subproof(m, entries, known))
    decreases |entries|
  {
    hide NodeHash, IsNode, Left, Right, LeafHash, Split;
    if m < |entries| {
      var k := Split(|entries|);
      if m <= k {
        SubproofOfRoot(m, entries[..k], known);
      } else {
        SubproofOfRoot(m - k, entries[k..], false);
      }
    }
  }

  /** An even prefix is proved on the pairs. */
  lemma {:induction false} SubproofByPairs(m: nat, root: Digest, n: nat, known: bool)
    requires 2 <= m <= n && m % 2 == 0
    ensures RootSubproof(m, root, n, known) == RootSubproof(m / 2, root, (n + 1) / 2, known)
    decreases n
  {
    hide Split;
    if m < n && IsNode(root) {
      var k := Split(n);
      SplitHalves(n);
      if m <= k {
        SubproofByPairs(m, Left(root), k, known);
      } else {
        SubproofByPairs(m - k, Right(root), n - k, false);
      }
    }
  }

  /** An opening as a path, with or without its leaf in front. */
  function PathOf(o: Option<Opening>, leafKnown: bool): Option<seq<Digest>> {
    match o
    case None => None
    case Some(x) => Some((if leafKnown then [] else [x.leaf]) + x.siblings)
  }

  lemma AppendBeside(o: Option<Opening>, leafKnown: bool, d: Digest)
    ensures Append(PathOf(o, leafKnown), d) == PathOf(Beside(o, d), leafKnown)
  {
    if o.Some? {
      var x := o.value;
      assert ((if leafKnown then [] else [x.leaf]) + x.siblings) + [d]
          == (if leafKnown then [] else [x.leaf]) + (x.siblings + [d]);
    }
  }

  /** An odd prefix is proved by its last leaf and that leaf's own path; the leaf is left
      out when it is the whole prefix. */
  lemma {:induction false} SubproofOfOdd(m: nat, root: Digest, n: nat, known: bool)
    requires 1 <= m <= n && m % 2 == 1 && (m < n || n == 1)
    ensures RootSubproof(m, root, n, known) == PathOf(Open(root, n, m - 1), known && m == 1)
    decreases n
  {
    if n == 1 {
      var x := Opening(root, []);
      assert [root] + x.siblings == [root] && x.siblings + x.siblings == x.siblings;
    } else if IsNode(root) {
      var k := Split(n);
      if m <= k {
        SubproofOfOdd(m, Left(root), k, known);
        AppendBeside(Open(Left(root), k, m - 1), known && m == 1, Right(root));
      } else {
        SubproofOfOdd(m - k, Right(root), n - k, false);
        AppendBeside(Open(Right(root), n - k, m - k - 1), false, Left(root));
      }
    }
  }

  /** The proof RFC 6962 builds is the path the verifier walks, without its head when the
      prefix is a power of two. */
  lemma {:induction false} ProofIsExpectedPath(f: nat, s: nat, second: Digest)
    requires f < s
    ensures match RootSubproof(f + 1, second, s + 1, true)
            case None => ExpectedPath(f, s, second) == None
            case Some(proof) => exists path ::
              && ExpectedPath(f, s, second) == Some(path) && path != []
              && proof == if IsPowerOfTwo(f + 1) then path[1..] else path
    decreases f
  {
    hide Open, RootSubproof;
    if f % 2 == 1 {
      SubproofByPairs(f + 1, second, s + 1, true);
      ProofIsExpectedPath(f / 2, s / 2, second);
    } else {
      SubproofOfOdd(f + 1, second, s + 1, true);
      var o := Open(second, s + 1, f);
      if o.Some? {
        assert ([o.value.leaf] + o.value.siblings)[1..] == [] + o.value.siblings;
      }
    }
  }

  /** The head left out is the older root itself. */
  lemma {:induction false} HeadIsOlderRoot(f: nat, s: nat, first: Digest, second: Digest)
    requires f <= s && IsPowerOfTwo(f + 1) && Whole(first, f + 1)
    requires Agree(first, f + 1, second, s + 1, f + 1)
    ensures ExpectedPath(f, s, second).Some?
         && ExpectedPath(f, s, second).value != []
         && ExpectedPath(f, s, second).value[0] == first
    decreases f
  {
    hide Open;
    if f == 0 {
      OpenOne(first);
      assert LeafAt(first, 1, 0) == LeafAt(second, s + 1, 0);
    } else {
      WholeUp(first, f + 1);
      AgreeUp(first, f + 1, second, s + 1, f + 1);
      HeadIsOlderRoot(f / 2, s / 2, first, second);
    }
  }

  /** The built trees agree below `t` exactly when the logs do. */
  lemma AgreeOnLogs(older: seq<Digest>, newer: seq<Digest>)
    requires 1 <= |older| <= |newer|
    ensures Whole(MerkleRoot(older), |older|)
    ensures Agree(MerkleRoot(older), |older|, MerkleRoot(newer), |newer|, |older|) <==> older == newer[..|older|]
  {
    hide Open;
    forall j | 0 <= j < |older|
      ensures LeafAt(MerkleRoot(older), |older|, j) == Some(LeafHash(older[j]))
      ensures LeafAt(MerkleRoot(newer), |newer|, j) == Some(LeafHash(newer[j]))
    {
      RootOpens(older, j);
      RootOpens(newer, j);
    }
    if Agree(MerkleRoot(older), |older|, MerkleRoot(newer), |newer|, |older|) {
      forall j | 0 <= j < |older| ensures older[j] == newer[j] {
        assert LeafAt(MerkleRoot(older), |older|, j) == LeafAt(MerkleRoot(newer), |newer|, j);
        LeafHashInjective(older[j], newer[j]);
      }
    }
  }

  /** On two real logs, the run accepts exactly an extension, by exactly its proof. */
  lemma ExtendsOnLogs(older: seq<Digest>, newer: seq<Digest>, proof: seq<Digest>, path: seq<Digest>)
    requires 0 < |older| < |newer|
    requires path == (if IsPowerOfTwo(|older|) then [MerkleRoot(older)] else []) + proof
    ensures Extends(|older| - 1, |newer| - 1, path, MerkleRoot(older), MerkleRoot(newer))
       <==> older == newer[..|older|] && proof == ConsistencyProof(newer, |older|)
  {
    hide Open, Extends, ExpectedPath, Subproof, Mth, RootSubproof, LeafAt;
    var f, s := |older| - 1, |newer| - 1;
    var first, second := MerkleRoot(older), MerkleRoot(newer);
    AgreeOnLogs(older, newer);
    ExtendsExactly(f, s, path, first, second);
    SubproofOfRoot(f + 1, newer, true);
    ProofIsExpectedPath(f, s, second);
    var expected :| ExpectedPath(f, s, second) == Some(expected) && expected != []
                 && ConsistencyProof(newer, |older|) == if IsPowerOfTwo(f + 1) then expected[1..] else expected;
    if IsPowerOfTwo(f + 1) {
      assert path[0] == first && path[1..] == proof;
      if older == newer[..|older|] {
        HeadIsOlderRoot(f, s, first, second);
        assert expected == [first] + expected[1..];
      }
    } else {
      assert path == proof;
    }
  }

  /** RFC 9162 section 2.1.4.2. */
  method VerifyConsistency(m: nat, n: nat, firstHash: Digest, secondHash: Digest, proof: seq<Digest>)
    returns (ok: bool)
    // Whatever the roots are: an accepted newer root commits to every leaf of the older.
    ensures ok ==> 0 < m < n && Agree(firstHash, m, secondHash, n, m)
    // Against the roots of real logs: exactly the prefix, by exactly the RFC 6962 proof.
    ensures forall older, newer |
              |older| == m && |newer| == n && MerkleRoot(older) == firstHash && MerkleRoot(newer) == secondHash ::
              ok <==> 0 < m < n && older == newer[..m] && proof == ConsistencyProof(newer, m)
  {
    hide Open, LeafAt, Mth, MerkleRoot, Subproof, ConsistencyProof, NodeHash, Split, Agree, IsPowerOfTwo;
    if m == 0 || m >= n || proof == [] {
      ConsistencyProofs(m, n);
      return false;
    }
    var path := proof;
    if IsPowerOfTwo(m) {
      path := [firstHash] + proof;
    }
    ok := WalkBoth(m - 1, n - 1, path, firstHash, secondHash);
    ConsistencyMeans(m, n, firstHash, secondHash, proof, path);
  }

  /** The two walks of the verifier, from the last positions of the two trees. */
  method WalkBoth(last: nat, newLast: nat, path: seq<Digest>, firstHash: Digest, secondHash: Digest) returns (ok: bool)
    requires last <= newLast && path != []
    ensures ok == Extends(last, newLast, path, firstHash, secondHash)
  {
    var fnode: nat, snode: nat := last, newLast;
    while fnode % 2 == 1
      invariant fnode <= snode
      invariant Extends(fnode, snode, path, firstHash, secondHash)
          == Extends(last, newLast, path, firstHash, secondHash)
      decreases fnode
    {
      fnode, snode := fnode / 2, snode / 2;
    }
    var fr, sr, j := path[0], path[0], 1;
    ghost var walk := ClimbBoth(fnode, snode, fr, sr, path[1..]);
    assert Extends(last, newLast, path, firstHash, secondHash) == (walk == Some((firstHash, secondHash)));
    hide Extends, ClimbBoth, NodeHash;
    while j < |path|
      invariant 1 <= j <= |path| && fnode <= snode
      invariant ClimbBoth(fnode, snode, fr, sr, path[j..]) == walk
    {
      BothStep(fnode, snode, fr, sr, path, j);
      if snode == 0 {
        return false;
      }
      var c := path[j];
      if fnode % 2 == 1 || fnode == snode {
        ghost var fb, sb := fr, sr;
        fr := NodeHash(c, fr);
        sr := NodeHash(c, sr);
        if fnode % 2 == 0 {
          fnode, snode := fnode / 2, snode / 2;
          while fnode % 2 == 0 && fnode != 0
            invariant fnode == snode && fnode > 0
            invariant ClimbBoth(fnode, snode, fb, sb, path[j..]) == walk
          {
            BothStep(fnode, snode, fb, sb, path, j);
            fnode, snode := fnode / 2, snode / 2;
          }
          BothStep(fnode, snode, fb, sb, path, j);
        }
      } else {
        sr := NodeHash(sr, c);
      }
      fnode, snode := fnode / 2, snode / 2;
      j := j + 1;
    }
    ok := fr == firstHash && sr == secondHash && snode == 0;
    if snode > 0 {
      NewerClimbs(fnode, snode, fr, sr, []);
      ClimbStops(fnode, snode, sr);
    } else {
      BothEnds(fr, sr);
    }
  }

  /** One unfolding of the two-root walk. */
  lemma BothStep(f: nat, s: nat, fr: Digest, sr: Digest, path: seq<Digest>, j: nat)
    requires f <= s && j < |path|
    ensures ClimbBoth(f, s, fr, sr, path[j..])
         == if s == 0 then None
            else if f % 2 == 1 then ClimbBoth(f / 2, s / 2, NodeHash(path[j], fr), NodeHash(path[j], sr), path[j + 1..])
            else if f == s then ClimbBoth(f / 2, s / 2, fr, sr, path[j..])
            else ClimbBoth(f / 2, s / 2, fr, NodeHash(sr, path[j]), path[j + 1..])
  {
    assert path[j..][1..] == path[j + 1..];
  }

  lemma BothEnds(fr: Digest, sr: Digest)
    ensures ClimbBoth(0, 0, fr, sr, []) == Some((fr, sr))
  {
  }

  lemma ConsistencyProofs(m: nat, n: nat)
    ensures 0 < m < n ==> forall newer | |newer| == n :: ConsistencyProof(newer, m) != []
  {
    forall newer: seq<Digest> | 0 < m < n && |newer| == n ensures ConsistencyProof(newer, m) != [] {
      assert Subproof(m, newer, true) != [];
    }
  }

  lemma ConsistencyMeans(m: nat, n: nat, first: Digest, second: Digest, proof: seq<Digest>, path: seq<Digest>)
    requires 0 < m < n && path == (if IsPowerOfTwo(m) then [first] else []) + proof
    ensures Extends(m - 1, n - 1, path, first, second) ==> Agree(first, m, second, n, m)
    ensures forall older, newer |
              |older| == m && |newer| == n && MerkleRoot(older) == first && MerkleRoot(newer) == second ::
              Extends(m - 1, n - 1, path, first, second)
              <==> older == newer[..m] && proof == ConsistencyProof(newer, m)
  {
    hide Extends, Open, LeafAt, ExpectedPath;
    if Extends(m - 1, n - 1, path, first, second) {
      ExtendsAgrees(m - 1, n - 1, path, first, second);
    }
    forall older, newer |
      |older| == m && |newer| == n && MerkleRoot(older) == first && MerkleRoot(newer) == second
      ensures Extends(m - 1, n - 1, path, first, second)
         <==> older == newer[..m] && proof == ConsistencyProof(newer, m)
    {
      ExtendsOnLogs(older, newer, proof, path);
    }
  }
}
