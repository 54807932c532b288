/** The anchor files and the epoch judgement (cli/src/anchors.rs): what the published files
    say about a log's epoch, what a served epoch is worth against them, and the cache a
    client's write path judges by. */
module Anchors {
  import opened Hashing

  const EPOCH_MAX: nat := 65535
  const TRANSITION_BOUND: nat := 900
  const CACHE_MAX_AGE: nat := 86_400

  /** A 32-byte VRF public key. */
  type VrfKey = nat

  /** What a genesis entry says, and its hash: the encoding and the hash taken as exact. */
  datatype Payload = Payload(epoch: nat, size: nat, root: Digest, key: VrfKey) | OtherPayload(id: nat)
  datatype EntryDigest = GenesisHash(payload: Payload, createdAt: nat) | OtherHash(id: nat)

  datatype RootLine = RootLine(epoch: nat, logSize: nat, root: Digest, epochEnd: bool)
  datatype EpochKey = EpochKey(epoch: nat, key: VrfKey, genesis: EntryDigest)
  datatype Files = Files(roots: seq<RootLine>, keys: seq<EpochKey>)

  // ---- what the files say --------------------------------------------------

  datatype KeyLookup = NoLine | OneLine(line: EpochKey) | TwoLines

  function KeysOf(keys: seq<EpochKey>, epoch: nat): seq<EpochKey> {
    if keys == [] then []
    else (if keys[0].epoch == epoch then [keys[0]] else []) + KeysOf(keys[1..], epoch)
  }

  function KeyOf(keys: seq<EpochKey>, epoch: nat): KeyLookup {
    var found := KeysOf(keys, epoch);
    if |found| == 0 then NoLine else if |found| == 1 then OneLine(found[0]) else TwoLines
  }

  function EpochEnd(roots: seq<RootLine>, epoch: nat): Option<RootLine> {
    if roots == [] then None
    else if roots[0].epoch == epoch && roots[0].epochEnd then Some(roots[0])
    else EpochEnd(roots[1..], epoch)
  }

  /** The last of the largest, as `max_by_key` takes it. */
  function LatestRoot(roots: seq<RootLine>, epoch: nat): Option<RootLine> {
    if roots == [] then None
    else
      var n := |roots| - 1;
      var best, line := LatestRoot(roots[..n], epoch), roots[n];
      if line.epoch == epoch && !line.epochEnd && (best.Some? ==> line.logSize >= best.value.logSize)
      then Some(line) else best
  }

  function Max(a: nat, b: nat): nat {
    if a >= b then a else b
  }

  /** The epoch after, in 16 bits, saturating. */
  function Successor(epoch: nat): nat {
    if epoch >= EPOCH_MAX then EPOCH_MAX else epoch + 1
  }

  function KeysMax(keys: seq<EpochKey>): nat {
    if keys == [] then 1 else Max(keys[0].epoch, KeysMax(keys[1..]))
  }

  function EndsMax(roots: seq<RootLine>): nat {
    if roots == [] then 1
    else Max(if roots[0].epochEnd then Successor(roots[0].epoch) else 1, EndsMax(roots[1..]))
  }

  function RootsMax(roots: seq<RootLine>): nat {
    if roots == [] then 1 else Max(roots[0].epoch, RootsMax(roots[1..]))
  }

  function MaxEpoch(f: Files): nat {
    Max(Max(KeysMax(f.keys), EndsMax(f.roots)), RootsMax(f.roots))
  }

  /** The files give evidence of an epoch: a key line or a root of it, or the end line of
      the one before. */
  ghost predicate Shows(f: Files, epoch: nat) {
    || (exists i :: 0 <= i < |f.keys| && f.keys[i].epoch == epoch)
    || (exists i | 0 <= i < |f.roots| ::
          f.roots[i].epoch == epoch || (f.roots[i].epochEnd && Successor(f.roots[i].epoch) == epoch))
  }

  lemma {:induction false} KeysMaxMeans(keys: seq<EpochKey>)
    ensures forall i :: 0 <= i < |keys| ==> keys[i].epoch <= KeysMax(keys)
    ensures KeysMax(keys) == 1 || exists i :: 0 <= i < |keys| && keys[i].epoch == KeysMax(keys)
  {
    if keys != [] {
      KeysMaxMeans(keys[1..]);
      assert keys[0].epoch == KeysMax(keys) || KeysMax(keys) == KeysMax(keys[1..]);
    }
  }

  lemma {:induction false} RootsMaxMeans(roots: seq<RootLine>)
    ensures forall i :: 0 <= i < |roots| ==> roots[i].epoch <= RootsMax(roots)
    ensures forall i :: 0 <= i < |roots| && roots[i].epochEnd ==> Successor(roots[i].epoch) <= EndsMax(roots)
    ensures RootsMax(roots) == 1 || exists i :: 0 <= i < |roots| && roots[i].epoch == RootsMax(roots)
    ensures EndsMax(roots) == 1
            || exists i :: 0 <= i < |roots| && roots[i].epochEnd && Successor(roots[i].epoch) == EndsMax(roots)
  {
    if roots != [] {
      RootsMaxMeans(roots[1..]);
      assert roots[0].epoch == RootsMax(roots) || RootsMax(roots) == RootsMax(roots[1..]);
    }
  }

  /** Parsed lines: an epoch fits 16 bits. */
  ghost predicate Parsed(f: Files) {
    && (forall i :: 0 <= i < |f.roots| ==> f.roots[i].epoch <= EPOCH_MAX)
    && (forall i :: 0 <= i < |f.keys| ==> f.keys[i].epoch <= EPOCH_MAX)
  }

  /** `max_epoch` is the highest epoch the files give evidence of, or 1, and fits 16 bits when
      the lines do. */
  lemma MaxEpochIsHighest(f: Files)
    ensures Parsed(f) ==> MaxEpoch(f) <= EPOCH_MAX
    ensures forall e: nat :: Shows(f, e) ==> e <= MaxEpoch(f)
    ensures MaxEpoch(f) == 1 || Shows(f, MaxEpoch(f))
  {
    KeysMaxMeans(f.keys);
    RootsMaxMeans(f.roots);
  }

  lemma {:induction false} KeysOfMeans(keys: seq<EpochKey>, epoch: nat)
    ensures forall k :: k in KeysOf(keys, epoch) <==> k in keys && k.epoch == epoch
  {
    if keys != [] {
      KeysOfMeans(keys[1..], epoch);
      assert keys == [keys[0]] + keys[1..];
    }
  }

  lemma {:induction false} EpochEndMeans(roots: seq<RootLine>, epoch: nat)
    ensures EpochEnd(roots, epoch).Some?
            <==> exists i :: 0 <= i < |roots| && roots[i].epoch == epoch && roots[i].epochEnd
    ensures EpochEnd(roots, epoch).Some? ==> var line := EpochEnd(roots, epoch).value;
                                             line in roots && line.epoch == epoch && line.epochEnd
  {
    if roots != [] {
      EpochEndMeans(roots[1..], epoch);
      assert roots == [roots[0]] + roots[1..];
    }
  }

  // ---- the judgement -------------------------------------------------------

  datatype Mode = Legacy | V3(epoch: nat, key: VrfKey, genesis: EntryDigest)
  datatype Verdict = Anchored(mode: Mode) | Unanchored | Violation
  datatype Served = Served(epoch: nat, key: Option<VrfKey>)

  /** Both files carry an epoch; `None` when two key lines claim it. */
  function Carries(f: Files, epoch: nat): Option<bool> {
    if epoch <= 1 then Some(true)
    else
      match KeyOf(f.keys, epoch)
      case TwoLines => None
      case NoLine => Some(false)
      case OneLine(_) => Some(EpochEnd(f.roots, epoch - 1).Some?)
  }

  function SoftOrHard(age: Option<nat>): Verdict {
    if age.Some? && age.value >= TRANSITION_BOUND then Violation else Unanchored
  }

  function JudgeEpoch(served: Served, files: Option<Files>, highest: nat, age: Option<nat>): Verdict {
    if served.epoch < highest then Violation
    else if files.None? then (if served.epoch <= 1 then Anchored(Legacy) else Unanchored)
    else if served.epoch < MaxEpoch(files.value) then SoftOrHard(age)
    else if served.epoch == 1 then Anchored(Legacy)
    else
      var carried := Carries(files.value, served.epoch);
      if carried.None? then Violation
      else if !carried.value then SoftOrHard(age)
      else
        match KeyOf(files.value.keys, served.epoch)
        case OneLine(line) =>
          if served.key == Some(line.key) then Anchored(V3(served.epoch, line.key, line.genesis)) else Violation
        case _ => Violation
  }

  /** The files and the server disagree in the way a cut in progress explains: the files are
      ahead, or they do not carry the served epoch yet. */
  ghost predicate Disagrees(served: Served, f: Files) {
    || (exists e: nat :: e > served.epoch && Shows(f, e))
    || (served.epoch >= 2 && |KeysOf(f.keys, served.epoch)| <= 1
        && !(|KeysOf(f.keys, served.epoch)| == 1 && HasEnd(f, served.epoch - 1)))
  }

  ghost predicate HasEnd(f: Files, epoch: nat) {
    exists i :: 0 <= i < |f.roots| && f.roots[i].epoch == epoch && f.roots[i].epochEnd
  }

  /** The files carry exactly this key for the served epoch, the one before it has ended, and
      nothing later is in evidence. */
  ghost predicate Pins(f: Files, served: Served, line: EpochKey) {
    && served.epoch >= 2 && KeysOf(f.keys, served.epoch) == [line] && HasEnd(f, served.epoch - 1)
    && (forall e: nat :: Shows(f, e) ==> e <= served.epoch)
    && served.key == Some(line.key)
  }

  /** Exactly when a served epoch of 2 or later is anchored, and to which key. */
  lemma V3Means(served: Served, files: Option<Files>, highest: nat, age: Option<nat>, mode: Mode)
    requires served.epoch >= 1
    ensures mode.V3? ==>
              (JudgeEpoch(served, files, highest, age) == Anchored(mode)
               <==> && served.epoch >= highest && files.Some? && mode.epoch == served.epoch
                    && Pins(files.value, served, EpochKey(mode.epoch, mode.key, mode.genesis)))
  {
    hide MaxEpoch, EpochEnd, Shows, KeysOf;
    if files.Some? {
      var f := files.value;
      MaxEpochIsHighest(f);
      KeysOfMeans(f.keys, served.epoch);
      if served.epoch >= 2 {
        EpochEndMeans(f.roots, served.epoch - 1);
      }
      if |KeysOf(f.keys, served.epoch)| == 1 {
        assert KeysOf(f.keys, served.epoch)[0] in KeysOf(f.keys, served.epoch);
      }
    }
  }

  /** Exactly when the receipts of epoch 1 apply, when the client may only wait, and when it
      must refuse. */
  lemma JudgementMeans(served: Served, files: Option<Files>, highest: nat, age: Option<nat>)
    requires served.epoch >= 1
    ensures var v := JudgeEpoch(served, files, highest, age);
            var past := age.Some? && age.value >= TRANSITION_BOUND;
            && (v == Anchored(Legacy) <==>
                  && served.epoch >= highest && served.epoch == 1
                  && (files.Some? ==> forall e: nat :: Shows(files.value, e) ==> e <= 1))
            && (v == Unanchored <==>
                  && served.epoch >= highest
                  && if files.None? then served.epoch >= 2 else Disagrees(served, files.value) && !past)
            && (served.epoch < highest ==> v == Violation)
            && (served.epoch >= highest && files.Some? && Disagrees(served, files.value) && past ==> v == Violation)
  {
    hide MaxEpoch, EpochEnd, Shows;
    if files.Some? {
      var f := files.value;
      MaxEpochIsHighest(f);
      if served.epoch >= 2 {
        EpochEndMeans(f.roots, served.epoch - 1);
      }
    }
  }

  // ---- the cache -----------------------------------------------------------

  /** A published root of the epoch, not its end line. */
  predicate IsRoot(line: RootLine, epoch: nat) {
    line.epoch == epoch && !line.epochEnd
  }

  predicate HasRoot(roots: seq<RootLine>, epoch: nat) {
    exists i :: 0 <= i < |roots| && IsRoot(roots[i], epoch)
  }

  /** The lines the cache keeps: every end line, and each epoch's last published root. */
  function Prune(roots: seq<RootLine>): seq<RootLine> {
    if roots == [] then []
    else if roots[0].epochEnd || !HasRoot(roots[1..], roots[0].epoch) then [roots[0]] + Prune(roots[1..])
    else Prune(roots[1..])
  }

  lemma {:induction false} PruneKeepsEnds(roots: seq<RootLine>, epoch: nat)
    ensures EpochEnd(Prune(roots), epoch) == EpochEnd(roots, epoch)
  {
    if roots != [] {
      PruneKeepsEnds(roots[1..], epoch);
      assert ([roots[0]] + Prune(roots[1..]))[1..] == Prune(roots[1..]);
    }
  }

  lemma {:induction false} PruneKeepsMax(roots: seq<RootLine>)
    ensures RootsMax(Prune(roots)) == RootsMax(roots) && EndsMax(Prune(roots)) == EndsMax(roots)
  {
    if roots != [] {
      PruneKeepsMax(roots[1..]);
      RootsMaxMeans(roots[1..]);
      assert ([roots[0]] + Prune(roots[1..]))[1..] == Prune(roots[1..]);
    }
  }

  /** The cache judges every server as the whole files do. */
  lemma CacheJudgesTheSame(served: Served, f: Files, highest: nat, age: Option<nat>)
    ensures JudgeEpoch(served, Some(Files(Prune(f.roots), f.keys)), highest, age)
            == JudgeEpoch(served, Some(f), highest, age)
  {
    PruneKeepsMax(f.roots);
    if served.epoch >= 2 {
      PruneKeepsEnds(f.roots, served.epoch - 1);
    }
  }

  /** The last line that is a published root of the epoch. */
  ghost predicate IsLast(roots: seq<RootLine>, epoch: nat, i: nat) {
    i < |roots| && IsRoot(roots[i], epoch) && forall j :: i < j < |roots| ==> !IsRoot(roots[j], epoch)
  }

  lemma {:induction false} LatestMeans(roots: seq<RootLine>, epoch: nat) returns (j: nat)
    ensures LatestRoot(roots, epoch).Some? <==> HasRoot(roots, epoch)
    ensures HasRoot(roots, epoch) ==>
              && j < |roots| && IsRoot(roots[j], epoch) && LatestRoot(roots, epoch) == Some(roots[j])
              && (forall k :: 0 <= k < |roots| && IsRoot(roots[k], epoch) ==> roots[k].logSize <= roots[j].logSize)
              && (forall k :: j < k < |roots| && IsRoot(roots[k], epoch) ==> roots[k].logSize < roots[j].logSize)
  {
    j := 0;
    if roots != [] {
      var n := |roots| - 1;
      j := LatestMeans(roots[..n], epoch);
      assert HasRoot(roots[..n], epoch) || IsRoot(roots[n], epoch) <==> HasRoot(roots, epoch);
      if LatestRoot(roots, epoch) != LatestRoot(roots[..n], epoch) || !HasRoot(roots[..n], epoch) {
        j := n;
      } else if IsRoot(roots[n], epoch) && roots[n].logSize >= roots[j].logSize {
        j := n;
      }
    }
  }

  /** What the cache keeps of an epoch's published roots is its last one. */
  lemma {:induction false} PruneKeepsLast(roots: seq<RootLine>, epoch: nat, i: nat)
    requires IsLast(roots, epoch, i)
    ensures LatestRoot(Prune(roots), epoch) == Some(roots[i])
  {
    PrunedRoot(roots, epoch, i);
    var j := LatestMeans(Prune(roots), epoch);
  }

  lemma {:induction false} PrunedRoot(roots: seq<RootLine>, epoch: nat, i: nat)
    requires IsLast(roots, epoch, i)
    ensures HasRoot(Prune(roots), epoch)
    ensures forall k :: 0 <= k < |Prune(roots)| && IsRoot(Prune(roots)[k], epoch) ==> Prune(roots)[k] == roots[i]
  {
    var rest := Prune(roots[1..]);
    if i == 0 {
      NoneKept(roots[1..], epoch);
      assert IsRoot(([roots[0]] + rest)[0], epoch);
    } else {
      PrunedRoot(roots[1..], epoch, i - 1);
      var k :| 0 <= k < |rest| && IsRoot(rest[k], epoch);
      assert ([roots[0]] + rest)[k + 1] == rest[k];
      assert IsRoot(roots[1..][i - 1], epoch);
    }
  }

  lemma {:induction false} NoneKept(roots: seq<RootLine>, epoch: nat)
    requires !HasRoot(roots, epoch)
    ensures !HasRoot(Prune(roots), epoch)
  {
    if roots != [] {
      assert !HasRoot(roots[1..], epoch) by {
        assert forall i :: 0 <= i < |roots[1..]| ==> roots[1..][i] == roots[i + 1];
      }
      NoneKept(roots[1..], epoch);
      assert !IsRoot(roots[0], epoch);
    }
  }

  /** The last published root of the epoch, where there is one, is a largest. */
  ghost predicate EndsLargest(roots: seq<RootLine>, epoch: nat) {
    forall i: nat, k: nat :: IsLast(roots, epoch, i) && k < |roots| && IsRoot(roots[k], epoch) ==>
      roots[k].logSize <= roots[i].logSize
  }

  lemma {:induction false} LastOf(roots: seq<RootLine>, epoch: nat) returns (i: nat)
    requires HasRoot(roots, epoch)
    ensures IsLast(roots, epoch, i)
  {
    var n := |roots| - 1;
    if IsRoot(roots[n], epoch) {
      i := n;
    } else {
      assert HasRoot(roots[..n], epoch) by {
        var k :| 0 <= k < |roots| && IsRoot(roots[k], epoch);
        assert roots[..n][k] == roots[k];
      }
      i := LastOf(roots[..n], epoch);
    }
  }

  /** The cache's latest root is the files' exactly when the last line of the epoch is a
      largest one, as it is in a file that only grows, or there is none. */
  lemma CacheLatestRoot(roots: seq<RootLine>, epoch: nat)
    ensures LatestRoot(Prune(roots), epoch) == LatestRoot(roots, epoch) <==> EndsLargest(roots, epoch)
  {
    var j := LatestMeans(roots, epoch);
    if HasRoot(roots, epoch) {
      var i := LastOf(roots, epoch);
      PruneKeepsLast(roots, epoch, i);
      assert forall k: nat :: IsLast(roots, epoch, k) ==> k == i;
    } else {
      NoneKept(roots, epoch);
      var l := LatestMeans(Prune(roots), epoch);
    }
  }

  /** It is not, for a file whose last line is a smaller root. */
  lemma CacheLosesLargest(root: Digest)
    ensures var roots := [RootLine(1, 7, root, false), RootLine(1, 3, root, false)];
            LatestRoot(roots, 1) == Some(roots[0]) && LatestRoot(Prune(roots), 1) == Some(roots[1])
  {
    var roots := [RootLine(1, 7, root, false), RootLine(1, 3, root, false)];
    assert IsLast(roots, 1, 1);
    PruneKeepsLast(roots, 1, 1);
    var j := LatestMeans(roots, 1);
    assert IsRoot(roots[0], 1);
  }
}
