/** Binding what a server serves to what the log holds (cli/src/anchors.rs,
    cli/src/commands.rs): a served entry to its leaf, a scan to the published log, and
    a single proof to the published root. */
module Watch {
  import opened Hashing
  import opened Encoding
  import opened Translog
  import opened Merkle

  type Fingerprint = string

  /** The fingerprint rule per purpose: a function of the key bytes that may refuse them. */
  type FingerprintRule = (Purpose, seq<byte>) -> Option<Fingerprint>

  datatype Result<+T> = Ok(value: T) | InvalidData | Violation

  // ---- a served entry ------------------------------------------------------

  datatype AccountField = Absent | Malformed | Named(bytes: seq<byte>)

  /** An entry as the server serves it: each field may be missing or unreadable, and the
      account is in the field its version names. */
  datatype Served = Served(
    version: Option<nat>,
    id: Option<nat>,
    accountId: AccountField,
    accountIndex: AccountField,
    purpose: Option<Purpose>,
    algorithm: Option<seq<byte>>,
    publicKey: Option<seq<byte>>,
    fingerprint: Option<Fingerprint>,
    createdAt: Option<nat>,
    prev: Option<Digest>,
    entryHash: Option<Digest>)
  {
    predicate InRange() {
      && (id.Some? ==> id.value < U64_SPAN)
      && (createdAt.Some? ==> createdAt.value < U64_SPAN)
      && (algorithm.Some? ==> |algorithm.value| < U32_SPAN)
      && (publicKey.Some? ==> |publicKey.value| < U32_SPAN)
      && (accountId.Named? ==> |accountId.bytes| == UUID_LEN)
    }

    function Account(v: Version): AccountField {
      if v == V2 then accountId else accountIndex
    }

    /** The entry these fields spell out, if they spell one out. */
    function AsEntry(): Option<Entry> {
      if version.None? || id.None? || purpose.None? || algorithm.None? || publicKey.None?
         || createdAt.None? || prev.None? || (version.value != 2 && version.value != 3) then
        None
      else
        var v := if version.value == 2 then V2 else V3;
        var account := Account(v);
        if account.Malformed? || (account.Named? && |account.bytes| != AccountLen(v)) then
          None
        else
          Some(Entry(v, id.value, if account.Absent? then None else Some(account.bytes), purpose.value,
                     algorithm.value, publicKey.value, createdAt.value, prev.value))
    }
  }

  function LowerChar(c: char): char {
    if 'A' <= c <= 'Z' then (c as int + 32) as char else c
  }

  function LowerAscii(s: string): (r: string)
    ensures |r| == |s|
  {
    seq(|s|, i requires 0 <= i < |s| => LowerChar(s[i]))
  }

  predicate EqIgnoreAsciiCase(a: string, b: string) {
    LowerAscii(a) == LowerAscii(b)
  }

  /** One letter in two cases: 65 to 90 are the upper-case letters, 32 below the lower-case. */
  predicate OtherCase(upper: char, lower: char) {
    65 <= upper as int <= 90 && lower as int == upper as int + 32
  }

  /** Equal but for case is equal letter for letter but for case, and nothing else. */
  lemma IgnoringCaseMeans(a: string, b: string)
    ensures EqIgnoreAsciiCase(a, b)
       <==> |a| == |b| && forall i :: 0 <= i < |a| ==> a[i] == b[i] || OtherCase(a[i], b[i]) || OtherCase(b[i], a[i])
  {
    if EqIgnoreAsciiCase(a, b) {
      forall i | 0 <= i < |a| ensures a[i] == b[i] || OtherCase(a[i], b[i]) || OtherCase(b[i], a[i]) {
        assert LowerAscii(a)[i] == LowerAscii(b)[i];
      }
    }
  }

  /** Recompute a served entry's leaf from its own fields and hold it to the served hash,
      the key's own fingerprint, and the key asked about. */
  function BindLeaf(e: Served, rule: FingerprintRule, askedFingerprint: Option<Fingerprint>,
                    askedPurpose: Option<Purpose>): (r: Result<Digest>)
  {
    var parsed := e.AsEntry();
    if parsed.None? || e.entryHash.None? then
      InvalidData
    else if EntryHash(parsed.value) != e.entryHash.value then
      Violation
    else
      var own := rule(parsed.value.purpose, parsed.value.publicKey);
      if own.None? then InvalidData
      else if e.fingerprint != own then Violation
      else if askedFingerprint.Some? && !EqIgnoreAsciiCase(askedFingerprint.value, own.value) then Violation
      else if askedPurpose.Some? && askedPurpose != e.purpose then Violation
      else Ok(e.entryHash.value)
  }

  /** When a served entry is bound, to what, and how it is refused: it cannot be read, or its key
      has no fingerprint; or it is not what it claims, or not what was asked about. */
  lemma BindMeans(e: Served, rule: FingerprintRule, fp: Option<Fingerprint>, purpose: Option<Purpose>)
    ensures var bound, entry := BindLeaf(e, rule, fp, purpose), e.AsEntry();
            && (bound.Ok? <==>
                  && entry.Some? && e.entryHash == Some(EntryHash(entry.value)) && e.fingerprint.Some?
                  && rule(entry.value.purpose, entry.value.publicKey) == e.fingerprint
                  && (fp.Some? ==> LowerAscii(fp.value) == LowerAscii(e.fingerprint.value))
                  && (purpose.Some? ==> purpose.value == entry.value.purpose))
            && (bound.Ok? ==> Some(bound.value) == e.entryHash)
            && (bound == InvalidData <==>
                  || entry.None? || e.entryHash.None?
                  || (e.entryHash == Some(EntryHash(entry.value))
                      && rule(entry.value.purpose, entry.value.publicKey).None?))
  {
    hide EntryHash, LowerAscii;
  }

  lemma BoundFields(e: Served, rule: FingerprintRule)
    requires BindLeaf(e, rule, None, None).Ok?
    ensures e.id.Some? && e.purpose.Some? && e.fingerprint.Some? && e.createdAt.Some?
    ensures e.entryHash == Some(BindLeaf(e, rule, None, None).value)
  {
  }

  /** A bound leaf that is some log entry's hash is that entry: its key, its purpose, its
      account, its position, and the fingerprint it was served under. */
  lemma BoundLeafIsTheEntry(e: Served, rule: FingerprintRule, fp: Option<Fingerprint>, purpose: Option<Purpose>,
                            logged: Entry)
    requires e.InRange() && logged.Valid()
    requires BindLeaf(e, rule, fp, purpose) == Ok(EntryHash(logged))
    ensures e.AsEntry().Some? && e.AsEntry().value.Normal() == logged.Normal()
    ensures e.fingerprint == rule(logged.purpose, logged.publicKey)
    ensures purpose.Some? ==> purpose.value == logged.purpose
    ensures fp.Some? ==> EqIgnoreAsciiCase(fp.value, e.fingerprint.value)
  {
    hide EntryHash;
    EntryHashIsExact(e.AsEntry().value, logged);
  }

  // ---- the owner's watch ---------------------------------------------------

  /** A (purpose, fingerprint) pair, as the log shows it or the keystore holds it. */
  type Key = (Purpose, Fingerprint)

  /** One entry under the owner's index, as the report lists it. */
  datatype Seen = Seen(id: nat, key: Key, createdAt: nat)

  datatype Verdict = Clean | ForeignKey | NotYetPublished

  datatype OwnerWatch = OwnerWatch(
    verdict: Verdict,
    entries: seq<(Seen, bool)>,
    foreign: seq<Fingerprint>,
    unlogged: seq<Fingerprint>)

  predicate SameKey(a: Key, b: Key) {
    a.0 == b.0 && EqIgnoreAsciiCase(a.1, b.1)
  }

  predicate Held(key: Key, held: seq<Key>) {
    exists i :: 0 <= i < |held| && SameKey(key, held[i])
  }

  predicate Logged(key: Key, mine: seq<Seen>) {
    exists i :: 0 <= i < |mine| && SameKey(mine[i].key, key)
  }

  function Foreign(mine: seq<Seen>, held: seq<Key>): seq<Fingerprint> {
    if mine == [] then []
    else
      var last := mine[|mine| - 1].key;
      Foreign(mine[..|mine| - 1], held) + if Held(last, held) then [] else [last.1]
  }

  function Unlogged(held: seq<Key>, mine: seq<Seen>): seq<Fingerprint> {
    if held == [] then []
    else
      var last := held[|held| - 1];
      Unlogged(held[..|held| - 1], mine) + if Logged(last, mine) then [] else [last.1]
  }

  function Report(mine: seq<Seen>, held: seq<Key>): OwnerWatch {
    var foreign, unlogged := Foreign(mine, held), Unlogged(held, mine);
    var verdict := if foreign != [] then ForeignKey else if unlogged != [] then NotYetPublished else Clean;
    var entries := seq(|mine|, i requires 0 <= i < |mine| => (mine[i], Held(mine[i].key, held)));
    OwnerWatch(verdict, entries, foreign, unlogged)
  }

  /** A pair, up to the case of the fingerprint. */
  function Pair(k: Key): Key {
    (k.0, LowerAscii(k.1))
  }

  function LoggedPairs(mine: seq<Seen>): set<Key> {
    set x | x in mine :: Pair(x.key)
  }

  function HeldPairs(held: seq<Key>): set<Key> {
    set k | k in held :: Pair(k)
  }

  /** `out` is, in order, the items of `all` at the positions kept, and no others. */
  ghost predicate Selected<T>(out: seq<T>, all: seq<T>, keep: seq<bool>) {
    exists at: seq<nat> :: SelectedAt(out, all, keep, at)
  }

  ghost predicate SelectedAt<T>(out: seq<T>, all: seq<T>, keep: seq<bool>, at: seq<nat>) {
    && |all| == |keep| && |at| == |out|
    && (forall i, j :: 0 <= i < j < |at| ==> at[i] < at[j])
    && (forall i :: 0 <= i < |at| ==> at[i] < |all| && keep[at[i]] && out[i] == all[at[i]])
    && (forall k: nat :: k < |all| && keep[k] ==> k in at)
  }

  lemma SelectNone<T>()
    ensures Selected<T>([], [], [])
  {
    assert SelectedAt<T>([], [], [], []);
  }

  lemma SelectOneMore<T>(out: seq<T>, all: seq<T>, keep: seq<bool>)
    requires |all| == |keep| > 0 && Selected(out, all[..|all| - 1], keep[..|all| - 1])
    ensures Selected(if keep[|all| - 1] then out + [all[|all| - 1]] else out, all, keep)
  {
    hide SelectedAt;
    var n := |all| - 1;
    var at: seq<nat> :| SelectedAt(out, all[..n], keep[..n], at);
    if keep[n] {
      KeptOneMore(out, all, keep, at);
    } else {
      LeftOneOut(out, all, keep, at);
    }
  }

  lemma KeptOneMore<T>(out: seq<T>, all: seq<T>, keep: seq<bool>, at: seq<nat>)
    requires var n := |all| - 1; |all| == |keep| > 0 && SelectedAt(out, all[..n], keep[..n], at) && keep[n]
    ensures SelectedAt(out + [all[|all| - 1]], all, keep, at + [|all| - 1])
  {
    var n := |all| - 1;
    forall k: nat | k < |all| && keep[k] ensures k in at + [n] {
      assert k < n ==> keep[..n][k] && k in at;
      assert (at + [n])[|at|] == n;
    }
  }

  lemma LeftOneOut<T>(out: seq<T>, all: seq<T>, keep: seq<bool>, at: seq<nat>)
    requires var n := |all| - 1; |all| == |keep| > 0 && SelectedAt(out, all[..n], keep[..n], at) && !keep[n]
    ensures SelectedAt(out, all, keep, at)
  {
    var n := |all| - 1;
    forall k: nat | k < |all| && keep[k] ensures k in at {
      assert keep[..n][k];
    }
  }

  /** The report, told by the listed entries and the held keys: each entry with whether its
      pair is held, the fingerprints of exactly the listed entries whose pair is not, those of
      exactly the held pairs that are not listed, and the verdict of the two sets of pairs. */
  ghost predicate Reports(r: OwnerWatch, mine: seq<Seen>, held: seq<Key>) {
    && |r.entries| == |mine|
    && (forall i :: 0 <= i < |mine| ==> r.entries[i] == (mine[i], Pair(mine[i].key) in HeldPairs(held)))
    && Selected(r.foreign, Listed(mine), NotHeld(mine, held))
    && Selected(r.unlogged, HeldPrints(held), NotLogged(held, mine))
    && (r.verdict == Clean <==> LoggedPairs(mine) == HeldPairs(held))
    && (r.verdict == ForeignKey <==> !(LoggedPairs(mine) <= HeldPairs(held)))
    && (r.verdict == NotYetPublished <==> LoggedPairs(mine) < HeldPairs(held))
  }

  ghost function Listed(mine: seq<Seen>): seq<Fingerprint> {
    seq(|mine|, i requires 0 <= i < |mine| => mine[i].key.1)
  }

  ghost function HeldPrints(held: seq<Key>): seq<Fingerprint> {
    seq(|held|, i requires 0 <= i < |held| => held[i].1)
  }

  ghost function NotHeld(mine: seq<Seen>, held: seq<Key>): seq<bool> {
    seq(|mine|, i requires 0 <= i < |mine| => Pair(mine[i].key) !in HeldPairs(held))
  }

  ghost function NotLogged(held: seq<Key>, mine: seq<Seen>): seq<bool> {
    seq(|held|, i requires 0 <= i < |held| => Pair(held[i]) !in LoggedPairs(mine))
  }

  lemma HeldMeans(key: Key, held: seq<Key>)
    ensures Held(key, held) <==> Pair(key) in HeldPairs(held)
  {
    hide LowerAscii;
    if i :| 0 <= i < |held| && SameKey(key, held[i]) {
      assert held[i] in held && Pair(held[i]) == Pair(key);
    }
    if Pair(key) in HeldPairs(held) {
      var k :| k in held && Pair(k) == Pair(key);
      var i :| 0 <= i < |held| && held[i] == k;
      assert SameKey(key, held[i]);
    }
  }

  lemma LoggedMeans(key: Key, mine: seq<Seen>)
    ensures Logged(key, mine) <==> Pair(key) in LoggedPairs(mine)
  {
    hide LowerAscii;
    if i :| 0 <= i < |mine| && SameKey(mine[i].key, key) {
      assert mine[i] in mine && Pair(mine[i].key) == Pair(key);
    }
    if Pair(key) in LoggedPairs(mine) {
      var x :| x in mine && Pair(x.key) == Pair(key);
      var i :| 0 <= i < |mine| && mine[i] == x;
      assert SameKey(mine[i].key, key);
    }
  }

  lemma {:induction false} ForeignMeans(mine: seq<Seen>, held: seq<Key>)
    ensures Selected(Foreign(mine, held), Listed(mine), NotHeld(mine, held))
    ensures Foreign(mine, held) == [] <==> LoggedPairs(mine) <= HeldPairs(held)
  {
    hide Selected, Pair, Held;
    if mine == [] {
      SelectNone<Fingerprint>();
    } else {
      var n := |mine| - 1;
      ForeignMeans(mine[..n], held);
      HeldMeans(mine[n].key, held);
      assert Listed(mine)[..n] == Listed(mine[..n]) && NotHeld(mine, held)[..n] == NotHeld(mine[..n], held);
      assert NotHeld(mine, held)[n] == !Held(mine[n].key, held) && Listed(mine)[n] == mine[n].key.1;
      SelectOneMore(Foreign(mine[..n], held), Listed(mine), NotHeld(mine, held));
      assert Foreign(mine, held) == if Held(mine[n].key, held) then Foreign(mine[..n], held)
                                    else Foreign(mine[..n], held) + [mine[n].key.1];
      assert mine == mine[..n] + [mine[n]];
      assert LoggedPairs(mine) == LoggedPairs(mine[..n]) + {Pair(mine[n].key)};
    }
  }

  lemma {:induction false} UnloggedMeans(held: seq<Key>, mine: seq<Seen>)
    ensures Selected(Unlogged(held, mine), HeldPrints(held), NotLogged(held, mine))
    ensures Unlogged(held, mine) == [] <==> HeldPairs(held) <= LoggedPairs(mine)
  {
    hide Selected, Pair, Logged;
    if held == [] {
      SelectNone<Fingerprint>();
    } else {
      var n := |held| - 1;
      UnloggedMeans(held[..n], mine);
      LoggedMeans(held[n], mine);
      assert HeldPrints(held)[..n] == HeldPrints(held[..n]) && NotLogged(held, mine)[..n] == NotLogged(held[..n], mine);
      assert NotLogged(held, mine)[n] == !Logged(held[n], mine) && HeldPrints(held)[n] == held[n].1;
      SelectOneMore(Unlogged(held[..n], mine), HeldPrints(held), NotLogged(held, mine));
      assert Unlogged(held, mine) == if Logged(held[n], mine) then Unlogged(held[..n], mine)
                                     else Unlogged(held[..n], mine) + [held[n].1];
      assert held == held[..n] + [held[n]];
      assert HeldPairs(held) == HeldPairs(held[..n]) + {Pair(held[n])};
    }
  }

  /** The report is the one the listed entries and the held keys give. */
  lemma ReportMeans(mine: seq<Seen>, held: seq<Key>)
    ensures Reports(Report(mine, held), mine, held)
  {
    hide Selected, Pair, Held, Foreign, Unlogged, LoggedPairs, HeldPairs;
    ForeignMeans(mine, held);
    UnloggedMeans(held, mine);
    forall i | 0 <= i < |mine| ensures Held(mine[i].key, held) == (Pair(mine[i].key) in HeldPairs(held)) {
      HeldMeans(mine[i].key, held);
    }
  }

  // What the published log itself holds under the index.

  function Hashes(log: seq<Entry>): (hs: seq<Digest>)
    ensures |hs| == |log|
    ensures forall i :: 0 <= i < |log| ==> hs[i] == EntryHash(log[i])
  {
    seq(|log|, i requires 0 <= i < |log| => EntryHash(log[i]))
  }

  ghost predicate ValidLog(log: seq<Entry>) {
    forall i :: 0 <= i < |log| ==> log[i].Valid()
  }

  function SeenIn(e: Entry, rule: FingerprintRule): Seen {
    var fp := rule(e.purpose, e.publicKey);
    Seen(e.id, (e.purpose, if fp.Some? then fp.value else ""), e.createdAt)
  }

  function UnderIndex(log: seq<Entry>, index: seq<byte>, rule: FingerprintRule): seq<Seen> {
    if log == [] then []
    else
      var last := log[|log| - 1];
      UnderIndex(log[..|log| - 1], index, rule)
        + if last.account == Some(index) then [SeenIn(last, rule)] else []
  }

  /** The scan holds the log: entry for entry, up to zero accounts. */
  ghost predicate Scans(scanned: seq<Served>, log: seq<Entry>) {
    && |scanned| == |log|
    && forall i :: 0 <= i < |log| ==>
         scanned[i].AsEntry().Some? && scanned[i].AsEntry().value.Normal() == log[i].Normal()
  }

  ghost predicate AcceptsEntry(e: Served, position: nat, rule: FingerprintRule) {
    e.id == Some(position) && e.version == Some(3) && BindLeaf(e, rule, None, None).Ok?
  }

  function Leaf(e: Served): Digest {
    if e.entryHash.Some? then e.entryHash.value else Opaque(0)
  }

  function Leaves(scanned: seq<Served>): (ls: seq<Digest>)
    ensures |ls| == |scanned|
    ensures forall i :: 0 <= i < |scanned| ==> ls[i] == Leaf(scanned[i])
  {
    seq(|scanned|, i requires 0 <= i < |scanned| => Leaf(scanned[i]))
  }

  /** Every position before this one is accepted, and this one is the right entry with a leaf
      that cannot be read. */
  ghost predicate FirstUnreadable(scanned: seq<Served>, i: int, rule: FingerprintRule) {
    && 0 <= i < |scanned| && (forall j :: 0 <= j < i ==> AcceptsEntry(scanned[j], j + 1, rule))
    && scanned[i].id == Some(i + 1) && scanned[i].version == Some(3)
    && BindLeaf(scanned[i], rule, None, None) == InvalidData
  }

  /** The report is of the entries the scan has under the index. */
  ghost predicate WatchesScan(r: OwnerWatch, scanned: seq<Served>, index: seq<byte>, held: seq<Key>) {
    exists mine :: Reports(r, mine, held)
                   && Selected(mine, seq(|scanned|, i requires 0 <= i < |scanned| => SeenServed(scanned[i])),
                               seq(|scanned|, i requires 0 <= i < |scanned| => scanned[i].accountIndex == Named(index)))
  }

  /** The report is of the entries the log has under the index, under their keys' own
      fingerprints. */
  ghost predicate WatchesLog(r: OwnerWatch, log: seq<Entry>, index: seq<byte>, held: seq<Key>, rule: FingerprintRule) {
    exists mine :: Reports(r, mine, held)
                   && Selected(mine, seq(|log|, i requires 0 <= i < |log| => SeenIn(log[i], rule)),
                               seq(|log|, i requires 0 <= i < |log| => log[i].account == Some(index)))
  }

  lemma ScanWatched(scanned: seq<Served>, index: seq<byte>, held: seq<Key>)
    ensures WatchesScan(Report(ServedUnder(scanned, index), held), scanned, index, held)
  {
    hide Selected, Reports, Report, ServedUnder, SeenServed;
    ReportMeans(ServedUnder(scanned, index), held);
    ServedSelected(scanned, index);
  }

  lemma LogWatched(log: seq<Entry>, index: seq<byte>, held: seq<Key>, rule: FingerprintRule)
    ensures WatchesLog(Report(UnderIndex(log, index, rule), held), log, index, held, rule)
  {
    hide Selected, Reports, Report, UnderIndex, SeenIn;
    ReportMeans(UnderIndex(log, index, rule), held);
    LogSelected(log, index, rule);
  }

  lemma {:induction false} ServedSelected(scanned: seq<Served>, index: seq<byte>)
    ensures Selected(ServedUnder(scanned, index),
                     seq(|scanned|, i requires 0 <= i < |scanned| => SeenServed(scanned[i])),
                     seq(|scanned|, i requires 0 <= i < |scanned| => scanned[i].accountIndex == Named(index)))
  {
    hide Selected, SeenServed;
    var all := seq(|scanned|, i requires 0 <= i < |scanned| => SeenServed(scanned[i]));
    var keep := seq(|scanned|, i requires 0 <= i < |scanned| => scanned[i].accountIndex == Named(index));
    if scanned == [] {
      SelectNone<Seen>();
      assert all == [] && keep == [];
    } else {
      var n := |scanned| - 1;
      var rest := scanned[..n];
      ServedSelected(rest, index);
      assert all[..n] == seq(|rest|, i requires 0 <= i < |rest| => SeenServed(rest[i]));
      assert keep[..n] == seq(|rest|, i requires 0 <= i < |rest| => rest[i].accountIndex == Named(index));
      SelectOneMore(ServedUnder(rest, index), all, keep);
      assert ServedUnder(scanned, index)
          == if keep[n] then ServedUnder(rest, index) + [all[n]] else ServedUnder(rest, index);
    }
  }

  lemma {:induction false} LogSelected(log: seq<Entry>, index: seq<byte>, rule: FingerprintRule)
    ensures Selected(UnderIndex(log, index, rule), seq(|log|, i requires 0 <= i < |log| => SeenIn(log[i], rule)),
                     seq(|log|, i requires 0 <= i < |log| => log[i].account == Some(index)))
  {
    hide Selected, SeenIn;
    var all := seq(|log|, i requires 0 <= i < |log| => SeenIn(log[i], rule));
    var keep := seq(|log|, i requires 0 <= i < |log| => log[i].account == Some(index));
    if log == [] {
      SelectNone<Seen>();
      assert all == [] && keep == [];
    } else {
      var n := |log| - 1;
      var rest := log[..n];
      LogSelected(rest, index, rule);
      assert all[..n] == seq(|rest|, i requires 0 <= i < |rest| => SeenIn(rest[i], rule));
      assert keep[..n] == seq(|rest|, i requires 0 <= i < |rest| => rest[i].account == Some(index));
      SelectOneMore(UnderIndex(rest, index, rule), all, keep);
      assert UnderIndex(log, index, rule)
          == if keep[n] then UnderIndex(rest, index, rule) + [all[n]] else UnderIndex(rest, index, rule);
    }
  }

  /** The owner's watch over a whole scan. */
  method WatchOwner(scanned: seq<Served>, size: nat, root: Digest, index: seq<byte>, held: seq<Key>,
                    rule: FingerprintRule)
    returns (r: Result<OwnerWatch>)
    requires forall i :: 0 <= i < |scanned| ==> scanned[i].InRange()
    ensures r.Ok? <==> |scanned| == size && MerkleRoot(Leaves(scanned)) == root
                       && forall i :: 0 <= i < |scanned| ==> AcceptsEntry(scanned[i], i + 1, rule)
    // Of the refusals, a document that cannot be read is told from a violation.
    ensures r == InvalidData <==> |scanned| == size && exists i :: FirstUnreadable(scanned, i, rule)
    ensures r.Ok? ==> WatchesScan(r.value, scanned, index, held)
    // An accepted scan is the published log, and the report is the log's own.
    ensures r.Ok? ==> forall log | ValidLog(log) && MerkleRoot(Hashes(log)) == root ::
              && Scans(scanned, log)
              && (index != Zeros(INDEX_LEN) ==> WatchesLog(r.value, log, index, held, rule))
  {
    hide BindLeaf, EntryHash, MerkleRoot, Report, UnderIndex, Scans, Hashes, Served.AsEntry, Zeros, WatchesScan,
      WatchesLog;
    if |scanned| != size {
      return Violation;
    }
    var leaves: seq<Digest>, mine: seq<Seen> := [], [];
    for i := 0 to |scanned|
      invariant leaves == Leaves(scanned[..i])
      invariant forall j :: 0 <= j < i ==> AcceptsEntry(scanned[j], j + 1, rule)
      invariant mine == ServedUnder(scanned[..i], index)
    {
      var e := scanned[i];
      assert scanned[..i + 1][..i] == scanned[..i];
      if e.id != Some(i + 1) || e.version != Some(3) {
        assert !AcceptsEntry(scanned[i], i + 1, rule);
        return Violation;
      }
      var bound := BindLeaf(e, rule, None, None);
      if !bound.Ok? {
        assert !AcceptsEntry(scanned[i], i + 1, rule);
        assert bound.InvalidData? ==> FirstUnreadable(scanned, i, rule);
        return if bound.InvalidData? then InvalidData else Violation;
      }
      BoundFields(e, rule);
      leaves := leaves + [bound.value];
      if e.accountIndex == Named(index) {
        mine := mine + [Seen(e.id.value, (e.purpose.value, e.fingerprint.value), e.createdAt.value)];
      }
    }
    assert scanned[..|scanned|] == scanned;
    if MerkleRoot(leaves) != root {
      return Violation;
    }
    r := Ok(Report(mine, held));
    ScanWatched(scanned, index, held);
    forall log | ValidLog(log) && MerkleRoot(Hashes(log)) == root
      ensures Scans(scanned, log)
      ensures index != Zeros(INDEX_LEN) ==> WatchesLog(r.value, log, index, held, rule)
    {
      RootDeterminesLog(leaves, Hashes(log));
      ScanIsLog(scanned, log, rule);
      if index != Zeros(INDEX_LEN) {
        SameUnderIndex(scanned, log, index, rule);
        LogWatched(log, index, held, rule);
      }
    }
  }

  function SeenServed(e: Served): Seen {
    if e.id.Some? && e.purpose.Some? && e.fingerprint.Some? && e.createdAt.Some?
    then Seen(e.id.value, (e.purpose.value, e.fingerprint.value), e.createdAt.value)
    else Seen(0, (Epoch, ""), 0)
  }

  function ServedUnder(scanned: seq<Served>, index: seq<byte>): seq<Seen> {
    if scanned == [] then []
    else
      var last := scanned[|scanned| - 1];
      ServedUnder(scanned[..|scanned| - 1], index)
        + if last.accountIndex == Named(index) then [SeenServed(last)] else []
  }

  lemma ScanIsLog(scanned: seq<Served>, log: seq<Entry>, rule: FingerprintRule)
    requires Leaves(scanned) == Hashes(log) && ValidLog(log)
    requires forall i :: 0 <= i < |scanned| ==> scanned[i].InRange() && AcceptsEntry(scanned[i], i + 1, rule)
    ensures Scans(scanned, log)
    ensures forall i :: 0 <= i < |log| ==> scanned[i].fingerprint == rule(log[i].purpose, log[i].publicKey)
  {
    assert |scanned| == |log|;
    forall i | 0 <= i < |log|
      ensures scanned[i].AsEntry().Some? && scanned[i].AsEntry().value.Normal() == log[i].Normal()
      ensures scanned[i].fingerprint == rule(log[i].purpose, log[i].publicKey)
    {
      assert Leaves(scanned)[i] == Hashes(log)[i];
      BoundLeafIsTheEntry(scanned[i], rule, None, None, log[i]);
    }
  }

  lemma {:induction false} SameUnderIndex(scanned: seq<Served>, log: seq<Entry>, index: seq<byte>,
                                          rule: FingerprintRule)
    requires Scans(scanned, log) && index != Zeros(INDEX_LEN)
    requires forall i :: 0 <= i < |log| ==> AcceptsEntry(scanned[i], i + 1, rule)
    requires forall i :: 0 <= i < |log| ==> scanned[i].fingerprint == rule(log[i].purpose, log[i].publicKey)
    ensures ServedUnder(scanned, index) == UnderIndex(log, index, rule)
  {
    hide BindLeaf, EntryHash;
    if log != [] {
      var n := |log| - 1;
      BoundFields(scanned[n], rule);
      SameUnderIndex(scanned[..n], log[..n], index, rule);
      var e := scanned[n].AsEntry().value;
      assert e.account == Some(index) <==> scanned[n].accountIndex == Named(index);
    }
  }

  /** An entry served as it is stored. */
  function Serve(e: Entry, rule: FingerprintRule): Served {
    var account := if e.account.Some? then Named(e.account.value) else Absent;
    Served(Some(if e.version == V2 then 2 else 3), Some(e.id), if e.version == V2 then account else Absent,
           if e.version == V3 then account else Absent, Some(e.purpose), Some(e.algorithm), Some(e.publicKey),
           rule(e.purpose, e.publicKey), Some(e.createdAt), Some(e.prev), Some(EntryHash(e)))
  }

  /** A stored entry whose key has a fingerprint is bound to its own leaf. */
  lemma ServedEntryBinds(e: Entry, rule: FingerprintRule)
    requires e.Valid() && rule(e.purpose, e.publicKey).Some?
    ensures Serve(e, rule).InRange() && Serve(e, rule).AsEntry() == Some(e)
    ensures BindLeaf(Serve(e, rule), rule, None, None) == Ok(EntryHash(e))
    ensures e.version == V3 ==> AcceptsEntry(Serve(e, rule), e.id, rule)
  {
    hide EntryHash;
  }

  /** A scan the watch accepts for a log's root. */
  ghost predicate Accepted(scanned: seq<Served>, log: seq<Entry>, rule: FingerprintRule) {
    && |scanned| == |log| && MerkleRoot(Leaves(scanned)) == MerkleRoot(Hashes(log))
    && forall i :: 0 <= i < |scanned| ==> scanned[i].InRange() && AcceptsEntry(scanned[i], i + 1, rule)
  }

  /** A log some scan is accepted for: version 3, numbered from one, every key with a
      fingerprint. */
  predicate Watchable(log: seq<Entry>, rule: FingerprintRule) {
    forall i :: 0 <= i < |log| ==>
      log[i].version == V3 && log[i].id == i + 1 && rule(log[i].purpose, log[i].publicKey).Some?
  }

  /** No account, or, what hashes the same, an index of zeros. */
  predicate Accountless(e: Entry) {
    e.Normal().account == None
  }

  ghost predicate Ambiguous(log: seq<Entry>, index: seq<byte>, held: seq<Key>, rule: FingerprintRule) {
    exists a, b :: Accepted(a, log, rule) && Accepted(b, log, rule)
                   && Report(ServedUnder(a, index), held) != Report(ServedUnder(b, index), held)
  }

  /** Two accepted scans of one log report differently exactly at the all-zero index of a log
      with an entry of no account: it can be served as the owner's or as nobody's. */
  lemma ZeroIndexIsAmbiguous(log: seq<Entry>, index: seq<byte>, held: seq<Key>, rule: FingerprintRule)
    requires ValidLog(log)
    ensures Ambiguous(log, index, held, rule)
       <==> Watchable(log, rule) && index == Zeros(INDEX_LEN) && exists i :: 0 <= i < |log| && Accountless(log[i])
  {
    hide Report, MerkleRoot, Accepted, UnderIndex, ServedUnder, Accountless, Watchable, Zeros;
    if a, b :| Accepted(a, log, rule) && Accepted(b, log, rule)
               && Report(ServedUnder(a, index), held) != Report(ServedUnder(b, index), held)
    {
      AcceptedDecides(a, log, index, rule);
      AcceptedDecides(b, log, index, rule);
    }
    if i :| Watchable(log, rule) && index == Zeros(INDEX_LEN) && 0 <= i < |log| && Accountless(log[i]) {
      TwoScans(log, i, held, rule);
    }
  }

  /** What an accepted scan lists is the log's own, unless the index is zero and an entry has no
      account. */
  lemma AcceptedDecides(scanned: seq<Served>, log: seq<Entry>, index: seq<byte>, rule: FingerprintRule)
    requires ValidLog(log) && Accepted(scanned, log, rule)
    ensures Watchable(log, rule)
    ensures index != Zeros(INDEX_LEN) ==> ServedUnder(scanned, index) == UnderIndex(log, index, rule)
    ensures (forall i :: 0 <= i < |log| ==> !Accountless(log[i])) ==> ServedUnder(scanned, Zeros(INDEX_LEN)) == []
  {
    hide MerkleRoot, EntryHash, Zeros, UnderIndex, ServedUnder;
    RootDeterminesLog(Leaves(scanned), Hashes(log));
    ScanIsLog(scanned, log, rule);
    forall i | 0 <= i < |log| ensures scanned[i].fingerprint.Some? {
      BoundFields(scanned[i], rule);
    }
    if index != Zeros(INDEX_LEN) {
      SameUnderIndex(scanned, log, index, rule);
    }
    if forall i :: 0 <= i < |log| ==> !Accountless(log[i]) {
      forall i | 0 <= i < |scanned| ensures scanned[i].accountIndex != Named(Zeros(INDEX_LEN)) {
        assert !Accountless(log[i]);
      }
      NoneServed(scanned, Zeros(INDEX_LEN));
    }
  }

  lemma {:induction false} NoneServed(scanned: seq<Served>, index: seq<byte>)
    requires forall i :: 0 <= i < |scanned| ==> scanned[i].accountIndex != Named(index)
    ensures ServedUnder(scanned, index) == []
  {
    if scanned != [] {
      NoneServed(scanned[..|scanned| - 1], index);
    }
  }

  lemma {:induction false} SomeServed(scanned: seq<Served>, index: seq<byte>, i: nat)
    requires i < |scanned| && scanned[i].accountIndex == Named(index)
    ensures ServedUnder(scanned, index) != []
  {
    if i < |scanned| - 1 {
      SomeServed(scanned[..|scanned| - 1], index, i);
    }
  }

  function ServeAll(log: seq<Entry>, rule: FingerprintRule): (scanned: seq<Served>)
    ensures |scanned| == |log|
    ensures forall i :: 0 <= i < |log| ==> scanned[i] == Serve(log[i], rule)
  {
    seq(|log|, i requires 0 <= i < |log| => Serve(log[i], rule))
  }

  /** Entries that hash as the log's do, served as they are, are accepted for the log. */
  lemma ServeAllAccepted(stored: seq<Entry>, log: seq<Entry>, rule: FingerprintRule)
    requires Watchable(log, rule) && ValidLog(log) && ValidLog(stored) && |stored| == |log|
    requires forall i :: 0 <= i < |log| ==> stored[i].Normal() == log[i].Normal()
    ensures Accepted(ServeAll(stored, rule), log, rule)
  {
    hide MerkleRoot, EntryHash, BindLeaf, Serve;
    var scanned := ServeAll(stored, rule);
    forall i | 0 <= i < |log|
      ensures scanned[i].InRange() && AcceptsEntry(scanned[i], i + 1, rule) && Leaves(scanned)[i] == Hashes(log)[i]
    {
      ServedEntryBinds(stored[i], rule);
      BoundFields(scanned[i], rule);
      EntryHashIsExact(stored[i], log[i]);
    }
    assert Leaves(scanned) == Hashes(log);
  }

  lemma TwoScans(log: seq<Entry>, i: nat, held: seq<Key>, rule: FingerprintRule)
    requires ValidLog(log) && Watchable(log, rule) && i < |log| && Accountless(log[i])
    ensures Ambiguous(log, Zeros(INDEX_LEN), held, rule)
  {
    hide MerkleRoot, EntryHash, Zeros, Report, ServedUnder, Accepted;
    var plain := seq(|log|, k requires 0 <= k < |log| => log[k].Normal());
    var zeroed := plain[i := plain[i].(account := Some(Zeros(INDEX_LEN)))];
    ServeAllAccepted(plain, log, rule);
    ServeAllAccepted(zeroed, log, rule);
    var a, b := ServeAll(plain, rule), ServeAll(zeroed, rule);
    NoneServed(a, Zeros(INDEX_LEN));
    SomeServed(b, Zeros(INDEX_LEN), i);
    ReportLists(ServedUnder(a, Zeros(INDEX_LEN)), held);
    ReportLists(ServedUnder(b, Zeros(INDEX_LEN)), held);
  }

  lemma ReportLists(mine: seq<Seen>, held: seq<Key>)
    ensures |Report(mine, held).entries| == |mine|
  {
  }

  // ---- one proof against the published root --------------------------------

  datatype PublishedRootVerdict =
    | NoPublishedRoot
    | MatchAtSameSize
    | ConsistentAdvance(from: nat, to: nat)
    | RootMismatchAtSameSize
    | LogShrank(published: nat, proof: nat)
    | NotAnExtension(from: nat, to: nat)
  {
    predicate Passes() {
      MatchAtSameSize? || ConsistentAdvance?
    }
  }

  /** The published root against the proof's root. `nodes` is what the server answers when
      asked for the consistency proof, and is read only on a genuine advance. */
  method JudgePublishedRoot(proofRoot: Digest, proofSize: nat, committed: Option<(Digest, nat)>, nodes: seq<Digest>)
    returns (v: PublishedRootVerdict)
    ensures v == NoPublishedRoot <==> committed == None
    // A pass keeps every published entry in place, whatever the proof's root is.
    ensures v.Passes() ==> forall log | committed == Some((MerkleRoot(log), |log|)) ::
              |log| <= proofSize && Agree(MerkleRoot(log), |log|, proofRoot, proofSize, |log|)
    // Against a real current log: a pass is exactly an extension, by the log's own proof.
    ensures forall log, now |
              committed == Some((MerkleRoot(log), |log|)) && proofRoot == MerkleRoot(now) && proofSize == |now| ::
              v.Passes()
              <==> log == now || (0 < |log| < |now| && log == now[..|log|] && nodes == ConsistencyProof(now, |log|))
    ensures committed.Some? ==> (v.LogShrank? <==> committed.value.1 > proofSize)
  {
    hide MerkleRoot, Agree, ConsistencyProof, LeafAt;
    if committed.None? {
      return NoPublishedRoot;
    }
    var (root, size) := committed.value;
    if size == proofSize {
      forall log, now | MerkleRoot(log) == MerkleRoot(now) ensures log == now {
        RootDeterminesLog(log, now);
      }
      AgreeWithItself(root, size);
      v := if root == proofRoot then MatchAtSameSize else RootMismatchAtSameSize;
    } else if size > proofSize {
      v := LogShrank(size, proofSize);
    } else {
      var extended := VerifyConsistency(size, proofSize, root, proofRoot, nodes);
      v := if extended then ConsistentAdvance(size, proofSize) else NotAnExtension(size, proofSize);
    }
  }

  lemma AgreeWithItself(root: Digest, n: nat)
    ensures Agree(root, n, root, n, n)
  {
  }

  /** What a valid answer means against the published log: an entry inside it is the
      published entry at that position, under that key's own fingerprint; and the root
      it is proved under holds every published entry in place. */
  ghost predicate HeldToLog(doc: Served, log: seq<Entry>, proofRoot: Digest, treeSize: nat, rule: FingerprintRule) {
    && doc.AsEntry().Some? && doc.AsEntry().value.id >= 1
    && (var e, at := doc.AsEntry().value, doc.AsEntry().value.id - 1;
        at < |log| ==> e.Normal() == log[at].Normal() && doc.fingerprint == rule(log[at].purpose, log[at].publicKey))
    && |log| <= treeSize
    && forall i :: 0 <= i < |log| ==> LeafAt(proofRoot, treeSize, i) == Some(LeafHash(EntryHash(log[i])))
  }

  /** The document an honest server sends about entry `doc.id` of `now`, which extends `log`. */
  ghost predicate ProvedHonestly(doc: Served, rule: FingerprintRule, fp: Option<Fingerprint>, purpose: Option<Purpose>,
                                 log: seq<Entry>, now: seq<Entry>, path: seq<Digest>, nodes: seq<Digest>) {
    && doc.id.Some? && 1 <= doc.id.value <= |now|
    && BindLeaf(doc, rule, fp, purpose) == Ok(EntryHash(now[doc.id.value - 1]))
    && path == InclusionProof(Hashes(now), doc.id.value - 1)
    && 0 < |log| <= |now| && Hashes(log) == Hashes(now)[..|log|]
    && (|log| < |now| ==> nodes == ConsistencyProof(Hashes(now), |log|))
  }

  /** How the command ends once the epoch is settled: the document cannot be read, the leaf is
      not in the tree it is proved under, there is no public root to hold that tree to, the
      consistency proof cannot be had, all is well, or the alarm. */
  datatype Exit = Unreadable | NotIncluded | Unanchored | Unfetched | Valid | Alarm

  /** The proof's own tree holds the leaf where the document says. */
  ghost predicate Included(doc: Served, leaf: Digest, treeSize: nat, proofRoot: Digest, path: seq<Digest>) {
    && doc.id.Some? && 1 <= doc.id.value <= treeSize
    && Open(proofRoot, treeSize, doc.id.value - 1) == Some(Opening(LeafHash(leaf), path))
  }

  /** The current log extends the published one, by the log's own proof; an empty published log
      is extended by nothing but itself. */
  ghost predicate ExtendsBy(log: seq<Digest>, now: seq<Digest>, nodes: Option<seq<Digest>>) {
    log == now || (0 < |log| < |now| && log == now[..|log|] && nodes == Some(ConsistencyProof(now, |log|)))
  }

  /** An entry its tree holds, under a published root. A valid answer is held to every log that
      root is of, whatever the proof's root; and against the roots of real logs the alarm is
      raised exactly when the current log is not an extension by its own proof. */
  ghost predicate JudgedAgainst(exit: Exit, doc: Served, treeSize: nat, proofRoot: Digest, rule: FingerprintRule,
                                committed: (Digest, nat), nodes: Option<seq<Digest>>) {
    && (exit == Valid || exit == Alarm)
    && (exit == Valid ==> forall log: seq<Entry> |
          ValidLog(log) && committed == (MerkleRoot(Hashes(log)), |log|) ::
          HeldToLog(doc, log, proofRoot, treeSize, rule))
    && (forall log: seq<Digest>, now: seq<Digest> |
          committed == (MerkleRoot(log), |log|) && proofRoot == MerkleRoot(now) && treeSize == |now| ::
          exit == Alarm <==> !ExtendsBy(log, now, nodes))
  }

  /** Each way out, exactly: by what the document, the tree and the published root are. */
  ghost predicate ExitMeans(exit: Exit, doc: Served, treeSize: nat, proofRoot: Digest, path: seq<Digest>,
                            rule: FingerprintRule, fp: Option<Fingerprint>, purpose: Option<Purpose>,
                            committed: Option<(Digest, nat)>, nodes: Option<seq<Digest>>) {
    match BindLeaf(doc, rule, fp, purpose)
    case InvalidData => exit == Unreadable
    case Violation => exit == Alarm
    case Ok(leaf) =>
      if !Included(doc, leaf, treeSize, proofRoot, path) then exit == NotIncluded
      else if committed.None? then exit == Unanchored
      else if committed.value.1 < treeSize && nodes.None? then exit == Unfetched
      else JudgedAgainst(exit, doc, treeSize, proofRoot, rule, committed.value, nodes)
  }

  /** The last step, for an entry its tree holds. */
  method JudgeEntry(doc: Served, leaf: Digest, treeSize: nat, proofRoot: Digest, path: seq<Digest>,
                    rule: FingerprintRule, askedFingerprint: Option<Fingerprint>, askedPurpose: Option<Purpose>,
                    committed: (Digest, nat), nodes: Option<seq<Digest>>)
    returns (exit: Exit)
    requires doc.InRange()
    requires BindLeaf(doc, rule, askedFingerprint, askedPurpose) == Ok(leaf)
    requires Included(doc, leaf, treeSize, proofRoot, path)
    requires committed.1 < treeSize ==> nodes.Some?
    ensures JudgedAgainst(exit, doc, treeSize, proofRoot, rule, committed, nodes)
  {
    hide MerkleRoot, Open, EntryHash, LeafAt, InclusionProof, ConsistencyProof, HeldToLog, BindLeaf, Agree;
    var v := JudgePublishedRoot(proofRoot, treeSize, Some(committed), if nodes.Some? then nodes.value else []);
    exit := if v.Passes() then Valid else Alarm;
    if exit == Valid {
      forall log: seq<Entry> | ValidLog(log) && committed == (MerkleRoot(Hashes(log)), |log|)
        ensures HeldToLog(doc, log, proofRoot, treeSize, rule)
      {
        ValidIsHeld(doc, rule, askedFingerprint, askedPurpose, log, proofRoot, treeSize, path);
      }
    }
  }

  /** `transparency verify`, from the served proof document to the way out. `nodes` is what the
      server answers when asked for the consistency proof. */
  method VerifyEntry(doc: Served, treeSize: nat, proofRoot: Digest, path: seq<Digest>, rule: FingerprintRule,
                     askedFingerprint: Option<Fingerprint>, askedPurpose: Option<Purpose>,
                     committed: Option<(Digest, nat)>, nodes: Option<seq<Digest>>)
    returns (exit: Exit)
    requires doc.InRange()
    ensures ExitMeans(exit, doc, treeSize, proofRoot, path, rule, askedFingerprint, askedPurpose, committed, nodes)
  {
    hide MerkleRoot, Open, BindLeaf, JudgedAgainst;
    var bound := BindLeaf(doc, rule, askedFingerprint, askedPurpose);
    if !bound.Ok? {
      return if bound.InvalidData? then Unreadable else Alarm;
    }
    BoundHasId(doc, rule, askedFingerprint, askedPurpose);
    if doc.id.value == 0 {
      return NotIncluded;
    }
    var included := VerifyInclusion(bound.value, doc.id.value - 1, treeSize, path, proofRoot);
    if !included {
      return NotIncluded;
    }
    if committed.None? {
      return Unanchored;
    }
    if committed.value.1 < treeSize && nodes.None? {
      return Unfetched;
    }
    exit := JudgeEntry(doc, bound.value, treeSize, proofRoot, path, rule, askedFingerprint, askedPurpose,
                       committed.value, nodes);
  }

  /** Every entry an honest server proves, of a log that extends a non-empty published one, is
      valid. */
  lemma HonestIsValid(exit: Exit, doc: Served, rule: FingerprintRule, fp: Option<Fingerprint>, purpose: Option<Purpose>,
                      log: seq<Entry>, now: seq<Entry>, path: seq<Digest>, nodes: seq<Digest>)
    requires ProvedHonestly(doc, rule, fp, purpose, log, now, path, nodes)
    requires ExitMeans(exit, doc, |now|, MerkleRoot(Hashes(now)), path, rule, fp, purpose,
                       Some((MerkleRoot(Hashes(log)), |log|)), Some(nodes))
    ensures exit == Valid
  {
    hide MerkleRoot, Open, EntryHash, BindLeaf, InclusionProof, ConsistencyProof, HeldToLog, LeafAt;
    HonestyMeans(doc, rule, fp, purpose, log, now, path, nodes);
    RootOpens(Hashes(now), doc.id.value - 1);
    assert ExtendsBy(Hashes(log), Hashes(now), Some(nodes));
  }

  /** Against a published root of an empty log every entry of a longer one raises the alarm,
      though the longer log extends it. */
  lemma EmptyLogAlarms(exit: Exit, doc: Served, leaf: Digest, rule: FingerprintRule, fp: Option<Fingerprint>,
                       purpose: Option<Purpose>, now: seq<Digest>, path: seq<Digest>, nodes: seq<Digest>)
    requires BindLeaf(doc, rule, fp, purpose) == Ok(leaf) && Included(doc, leaf, |now|, MerkleRoot(now), path)
    requires ExitMeans(exit, doc, |now|, MerkleRoot(now), path, rule, fp, purpose, Some((MerkleRoot([]), 0)),
                       Some(nodes))
    ensures exit == Alarm && [] <= now
  {
    hide MerkleRoot, Open, BindLeaf, HeldToLog;
    assert !ExtendsBy([], now, Some(nodes));
  }

  lemma BoundHasId(doc: Served, rule: FingerprintRule, fp: Option<Fingerprint>, purpose: Option<Purpose>)
    requires BindLeaf(doc, rule, fp, purpose).Ok?
    ensures doc.id.Some? && purpose in {None, doc.purpose}
  {
  }

  lemma HonestyMeans(doc: Served, rule: FingerprintRule, fp: Option<Fingerprint>, purpose: Option<Purpose>,
                     log: seq<Entry>, now: seq<Entry>, path: seq<Digest>, nodes: seq<Digest>)
    requires ProvedHonestly(doc, rule, fp, purpose, log, now, path, nodes)
    ensures var bound := BindLeaf(doc, rule, fp, purpose);
            && bound.Ok? && doc.id.Some? && 1 <= doc.id.value <= |now|
            && Hashes(now)[doc.id.value - 1] == bound.value
            && path == InclusionProof(Hashes(now), doc.id.value - 1)
    ensures Hashes(log) == Hashes(now)
         || (0 < |log| < |now| && Hashes(log) == Hashes(now)[..|log|] && nodes == ConsistencyProof(Hashes(now), |log|))
  {
    hide BindLeaf, EntryHash, InclusionProof, ConsistencyProof;
  }

  lemma ValidIsHeld(doc: Served, rule: FingerprintRule, fp: Option<Fingerprint>, purpose: Option<Purpose>,
                    log: seq<Entry>, proofRoot: Digest, treeSize: nat, path: seq<Digest>)
    requires doc.InRange() && ValidLog(log) && BindLeaf(doc, rule, fp, purpose).Ok?
    requires doc.id.Some? && 1 <= doc.id.value <= treeSize && |log| <= treeSize
    requires Agree(MerkleRoot(Hashes(log)), |log|, proofRoot, treeSize, |log|)
    requires Open(proofRoot, treeSize, doc.id.value - 1)
          == Some(Opening(LeafHash(BindLeaf(doc, rule, fp, purpose).value), path))
    ensures HeldToLog(doc, log, proofRoot, treeSize, rule)
  {
    hide MerkleRoot, Open, EntryHash, LeafAt, Agree;
    var at := doc.id.value - 1;
    PublishedLeaves(log, proofRoot, treeSize, at, path, BindLeaf(doc, rule, fp, purpose).value);
    if at < |log| {
      BoundLeafIsTheEntry(doc, rule, fp, purpose, log[at]);
    }
  }

  lemma PublishedLeaves(log: seq<Entry>, proofRoot: Digest, treeSize: nat, at: nat, path: seq<Digest>, leaf: Digest)
    requires |log| <= treeSize && at < treeSize
    requires Agree(MerkleRoot(Hashes(log)), |log|, proofRoot, treeSize, |log|)
    requires Open(proofRoot, treeSize, at) == Some(Opening(LeafHash(leaf), path))
    ensures forall i :: 0 <= i < |log| ==> LeafAt(proofRoot, treeSize, i) == Some(LeafHash(EntryHash(log[i])))
    ensures at < |log| ==> leaf == EntryHash(log[at])
  {
    hide Open, MerkleRoot, EntryHash;
    forall i | 0 <= i < |log| ensures LeafAt(proofRoot, treeSize, i) == Some(LeafHash(EntryHash(log[i]))) {
      RootOpens(Hashes(log), i);
      assert LeafAt(MerkleRoot(Hashes(log)), |log|, i) == LeafAt(proofRoot, treeSize, i);
    }
    if at < |log| {
      LeafHashInjective(leaf, EntryHash(log[at]));
    }
  }
}
