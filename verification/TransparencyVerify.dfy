/** One attempt of `transparency verify` (cli/src/commands.rs): the epoch against the anchor
    files, a proof from a retired epoch, and which published root a proof is held to. */
module TransparencyVerify {
  import opened Hashing
  import opened Translog
  import opened Merkle
  import opened Watch
  import A = Anchors

  /** What anchoring the server came to: the epoch it serves, the files if they could be read,
      and the verdict. */
  datatype Anchoring = Anchoring(epoch: nat, files: Option<A.Files>, verdict: A.Verdict)

  /** The epoch is in violation or a retired epoch's proof is at odds with its end line, the
      epoch is retired, or the entry was checked. */
  datatype Outcome = Violated | Retired(matchesEnd: bool) | Checked(exit: Exit)

  /** The end line of an epoch, if the files at hand have one. */
  function EndOf(anchoring: Option<Anchoring>, epoch: nat): Option<A.RootLine> {
    if anchoring.None? || anchoring.value.files.None? then None
    else A.EpochEnd(anchoring.value.files.value.roots, epoch)
  }

  /** The root a proof is held to: the one given, or else the files' latest for the served
      epoch, if that is anchored. Never the server's own claim. */
  function Committed(anchoring: Option<Anchoring>, given: Option<(Digest, nat)>): Option<(Digest, nat)> {
    if given.Some? then given
    else if anchoring.None? || !anchoring.value.verdict.Anchored? || anchoring.value.files.None? then None
    else
      match A.LatestRoot(anchoring.value.files.value.roots, anchoring.value.epoch)
      case None => None
      case Some(line) => Some((line.root, line.logSize))
  }

  /** The proof was taken at the end of its epoch. */
  predicate AtEnd(end: Option<A.RootLine>, treeSize: nat) {
    end.Some? && treeSize == end.value.logSize
  }

  /** An alarm exactly on a violation of the epoch or a proof at a retired epoch's final size
      under another root; a retired epoch is reported as such, and as matching exactly when the
      proof's tree is the epoch's final one; otherwise the entry's own way out, against the
      committed root. */
  method VerifyOnce(anchoring: Option<Anchoring>, given: Option<(Digest, nat)>, docEpoch: nat,
                    doc: Served, treeSize: nat, proofRoot: Digest, path: seq<Digest>, rule: FingerprintRule,
                    askedFingerprint: Option<Fingerprint>, askedPurpose: Option<Purpose>, nodes: Option<seq<Digest>>)
    returns (r: Outcome)
    requires doc.InRange()
    ensures r == Violated <==>
              || (anchoring.Some? && anchoring.value.verdict.Violation?)
              || (AtEnd(EndOf(anchoring, docEpoch), treeSize) && EndOf(anchoring, docEpoch).value.root != proofRoot)
    ensures r != Violated ==> (r.Retired? <==> EndOf(anchoring, docEpoch).Some?)
    // At a match the proof's log is the epoch's own final log.
    ensures r.Retired? ==> (r.matchesEnd <==> AtEnd(EndOf(anchoring, docEpoch), treeSize))
    ensures r == Retired(true) ==> forall log, last |
              MerkleRoot(log) == proofRoot && MerkleRoot(last) == EndOf(anchoring, docEpoch).value.root :: log == last
    ensures r.Checked? ==>
              ExitMeans(r.exit, doc, treeSize, proofRoot, path, rule, askedFingerprint, askedPurpose,
                        Committed(anchoring, given), nodes)
  {
    hide MerkleRoot, ExitMeans;
    if anchoring.Some? && anchoring.value.verdict.Violation? {
      return Violated;
    }
    var end := EndOf(anchoring, docEpoch);
    if end.Some? {
      var atEnd := treeSize == end.value.logSize;
      var matches := atEnd && proofRoot == end.value.root;
      if atEnd && !matches {
        return Violated;
      }
      forall log, last | MerkleRoot(log) == MerkleRoot(last) ensures log == last {
        RootDeterminesLog(log, last);
      }
      return Retired(matches);
    }
    var exit := VerifyEntry(doc, treeSize, proofRoot, path, rule, askedFingerprint, askedPurpose,
                            Committed(anchoring, given), nodes);
    return Checked(exit);
  }

  /** What a proof is held to: the root given, if one is; otherwise there is one exactly when the
      served epoch is anchored by files that publish a root of it, and it is a largest such. */
  lemma CommittedIsLargest(anchoring: Option<Anchoring>, given: Option<(Digest, nat)>)
    ensures given.Some? ==> Committed(anchoring, given) == given
    ensures given.None? ==>
              (Committed(anchoring, given).Some?
               <==> && anchoring.Some? && anchoring.value.verdict.Anchored? && anchoring.value.files.Some?
                    && A.HasRoot(anchoring.value.files.value.roots, anchoring.value.epoch))
    ensures given.None? && Committed(anchoring, given).Some? ==>
              var roots, epoch := anchoring.value.files.value.roots, anchoring.value.epoch;
              var c := Committed(anchoring, given).value;
              && (exists k :: 0 <= k < |roots| && A.IsRoot(roots[k], epoch) && c == (roots[k].root, roots[k].logSize))
              && forall k :: 0 <= k < |roots| && A.IsRoot(roots[k], epoch) ==> roots[k].logSize <= c.1
  {
    if given.None? && anchoring.Some? && anchoring.value.files.Some? {
      var roots, epoch := anchoring.value.files.value.roots, anchoring.value.epoch;
      var j := A.LatestMeans(roots, epoch);
    }
  }
}
