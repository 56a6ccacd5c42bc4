/**
 Preparing a scraped batch for historization (`RobHistorizer._preprocess_new_rob`):
 imputing missing finding places, matching them against the catalogue, numbering
 repeated (Fundort, Einlieferungsdatum, Tierart) rows, and deriving `Sys_id` and
 `Sys_hash`.
 */
module Identify {
  import opened Wrappers
  import opened Records
  import opened Seqs
  import opened Catalogue

  /** `fillna("Unknown")` on the Fundort column. */
  function Impute(place: Option<string>): (r: string)
    ensures place.Some? ==> r == place.value
    ensures place.None? ==> r == UNKNOWN
  {
    place.GetOr(UNKNOWN)
  }

  /** What imputation and matching promise about one resolved row. */
  ghost predicate Resolves(raw: RawRow, res: Resolved, cat: seq<Entry>, matcher: Matcher)
  {
    && res.place == (if raw.place.Some? then raw.place.value else UNKNOWN)
    && res.mapped == matcher(res.place, Names(cat))
    && (exists k :: 0 <= k < |cat| && cat[k] == Entry(res.mapped, res.lat, res.long)
                    && forall j :: k < j < |cat| ==> cat[j].name != res.mapped)
    && res.admitted == raw.admitted && res.species == raw.species && res.status == raw.status
  }

  function ResolveRow(raw: RawRow, cat: seq<Entry>, matcher: Matcher): (res: Resolved)
    requires |cat| > 0 && PicksCandidate(matcher)
    ensures Resolves(raw, res, cat, matcher)
  {
    var place := Impute(raw.place);
    var mapped := matcher(place, Names(cat));
    var e := Locate(cat, mapped);
    Resolved(place, mapped, e.lat, e.long, raw.admitted, raw.species, raw.status)
  }

  /**
   Imputation, spelling correction and coordinates for a whole batch. Matching
   indexes the first of an empty match list when the catalogue is empty, which
   only happens when there is at least one row to match.
   */
  function Resolve(raws: seq<RawRow>, cat: seq<Entry>, matcher: Matcher): (r: Result<seq<Resolved>, Error>)
    requires PicksCandidate(matcher)
    ensures r.Failure? <==> |raws| > 0 && |cat| == 0
    ensures r.Failure? ==> r.error == NoCatalogueAvailable
    ensures r.Success? ==> |r.value| == |raws|
    ensures r.Success? ==> forall i :: 0 <= i < |raws| ==> Resolves(raws[i], r.value[i], cat, matcher)
    ensures r.Success? ==> forall i :: 0 <= i < |raws| ==> r.value[i].mapped in Names(cat)
  {
    if |raws| == 0 then Success([])
    else if |cat| == 0 then Failure(NoCatalogueAvailable)
    else Success(seq(|raws|, i requires 0 <= i < |raws| => ResolveRow(raws[i], cat, matcher)))
  }

  /** The review window's close: Fundort is dropped and Mapped Fundort takes its name. */
  function Relabel(r: Resolved): Located
  {
    Located(r.mapped, r.lat, r.long, r.admitted, r.species, r.status)
  }

  /**
   After the close, a resolved row's (Fundort, Lat, Long) is the catalogue entry its
   place was matched to, the last of that name, and the reported fields are the raw row's.
   */
  lemma RelabelCatalogued(raw: RawRow, res: Resolved, cat: seq<Entry>, matcher: Matcher)
    requires Resolves(raw, res, cat, matcher)
    ensures var l := Relabel(res);
            && l.place == matcher(Impute(raw.place), Names(cat))
            && Entry(l.place, l.lat, l.long) in cat
            && Entry(l.place, l.lat, l.long) == Locate(cat, l.place)
            && l.admitted == raw.admitted && l.species == raw.species && l.status == raw.status
  {
    var k :| 0 <= k < |cat| && cat[k] == Entry(res.mapped, res.lat, res.long)
             && forall j :: k < j < |cat| ==> cat[j].name != res.mapped;
    var e := Locate(cat, res.mapped);
    var k' :| 0 <= k' < |cat| && cat[k'] == e && forall j :: k' < j < |cat| ==> cat[j].name != res.mapped;
    assert cat[k].name == res.mapped && cat[k'].name == e.name;
    assert k == k';
  }

  /** The columns `groupby` numbers rows by. */
  datatype GroupKey = GroupKey(place: string, admitted: Day, species: string)

  function KeyOf(l: Located): GroupKey
  {
    GroupKey(l.place, l.admitted, l.species)
  }

  /** `cumcount()`: how many earlier rows share the row's group. */
  function Ordinal(keys: seq<GroupKey>, i: nat): nat
    requires i < |keys|
  {
    multiset(keys[..i])[keys[i]]
  }

  /** `groupby(...).cumcount()` as pandas computes it, with one running counter per group. */
  method CumCount(keys: seq<GroupKey>) returns (ordinals: seq<nat>)
    ensures |ordinals| == |keys|
    ensures forall i :: 0 <= i < |keys| ==> ordinals[i] == Ordinal(keys, i)
  {
    var counters: map<GroupKey, nat> := map[];
    ordinals := [];
    var i := 0;
    while i < |keys|
      invariant 0 <= i <= |keys|
      invariant |ordinals| == i
      invariant forall j :: 0 <= j < i ==> ordinals[j] == Ordinal(keys, j)
      invariant forall k :: k in counters ==> counters[k] == multiset(keys[..i])[k]
      invariant forall k :: k !in counters ==> multiset(keys[..i])[k] == 0
    {
      var k := keys[i];
      var seen := if k in counters then counters[k] else 0;
      assert keys[..i + 1] == keys[..i] + [k];
      ordinals := ordinals + [seen];
      counters := counters[k := seen + 1];
      i := i + 1;
    }
  }

  /** Within a group, later rows get strictly larger ordinals. */
  lemma OrdinalIncreases(keys: seq<GroupKey>, i: nat, j: nat)
    requires i < j < |keys| && keys[i] == keys[j]
    ensures Ordinal(keys, i) < Ordinal(keys, j)
  {
    assert keys[..j] == keys[..i] + keys[i..j];
    assert keys[i] in keys[i..j];
  }

  /** Every ordinal stays below the size of its group. */
  lemma OrdinalBelowGroupSize(keys: seq<GroupKey>, i: nat)
    requires i < |keys|
    ensures Ordinal(keys, i) < multiset(keys)[keys[i]]
  {
    assert keys == keys[..i] + keys[i..];
    assert keys[i] in keys[i..];
  }

  /**
   Every number below the size of a group is the ordinal of one of its rows; with
   `OrdinalIncreases` and `OrdinalBelowGroupSize`, the ordinals of a group of n rows
   are exactly 0 .. n-1.
   */
  lemma {:induction false} NthOfGroup(keys: seq<GroupKey>, k: GroupKey, o: nat) returns (i: nat)
    requires o < multiset(keys)[k]
    ensures i < |keys| && keys[i] == k && Ordinal(keys, i) == o
    decreases |keys|
  {
    var n := |keys| - 1;
    var p := keys[..n];
    assert keys == p + [keys[n]];
    if o < multiset(p)[k] {
      i := NthOfGroup(p, k, o);
      assert keys[..i] == p[..i];
    } else {
      i := n;
    }
  }

  /** `Sys_id` and `Sys_hash` of a row given its ordinal; `Erstellt_am` is the snapshot time. */
  function Stamp(l: Located, ordinal: nat, created: Instant, hash: Hasher): Identified
  {
    var id := hash(IdFields(l.place, l.admitted, l.species, ordinal));
    Identified(id, l.place, l.lat, l.long, l.admitted, l.species, l.status, created,
               hash(VersionFields(id, l.place, l.admitted, l.species, l.status)))
  }

  /** The `Sys_id` the `i`-th row of a batch is given. */
  function IdAt(batch: seq<Located>, i: nat, hash: Hasher): Digest
    requires i < |batch|
  {
    hash(IdFields(batch[i].place, batch[i].admitted, batch[i].species, Ordinal(Project(batch, KeyOf), i)))
  }

  function StampAll(batch: seq<Located>, created: Instant, hash: Hasher): (rows: seq<Identified>)
    ensures |rows| == |batch|
    ensures forall i :: 0 <= i < |batch| ==>
              rows[i] == Stamp(batch[i], Ordinal(Project(batch, KeyOf), i), created, hash)
  {
    var keys := Project(batch, KeyOf);
    seq(|batch|, i requires 0 <= i < |batch| => Stamp(batch[i], Ordinal(keys, i), created, hash))
  }

  /**
   Identification of a reviewed batch, ending with the check that `Sys_id` is
   unique. On success the batch keeps its order and its columns, and every
   `Sys_id` occurs once.
   */
  function Identify(batch: seq<Located>, created: Instant, hash: Hasher): (r: Result<seq<Identified>, Error>)
    ensures r.Failure? ==> r.error == DuplicateIdentity
    ensures r.Failure? <==> exists i, j :: 0 <= i < j < |batch| && IdAt(batch, i, hash) == IdAt(batch, j, hash)
    ensures r.Success? ==> DistinctIds(r.value) && |r.value| == |batch|
    ensures r.Success? ==> forall i :: 0 <= i < |batch| ==>
              && r.value[i].place == batch[i].place && r.value[i].admitted == batch[i].admitted
              && r.value[i].species == batch[i].species && r.value[i].status == batch[i].status
              && r.value[i].lat == batch[i].lat && r.value[i].long == batch[i].long
              && r.value[i].created == created
    ensures r.Success? ==> forall i :: 0 <= i < |batch| ==>
              && r.value[i].id == hash(IdFields(batch[i].place, batch[i].admitted, batch[i].species,
                                                Ordinal(Project(batch, KeyOf), i)))
              && r.value[i].hash == hash(VersionFields(r.value[i].id, batch[i].place, batch[i].admitted,
                                                       batch[i].species, batch[i].status))
  {
    var rows := StampAll(batch, created, hash);
    assert forall i :: 0 <= i < |batch| ==> rows[i].id == IdAt(batch, i, hash);
    if DistinctIds(rows) then Success(rows) else Failure(DuplicateIdentity)
  }

  /** With a collision-free hash the uniqueness check never fails. */
  lemma {:induction false} IdentifyNeverFails(batch: seq<Located>, created: Instant, hash: Hasher)
    requires Injective(hash)
    ensures Identify(batch, created, hash).Success?
  {
    var keys := Project(batch, KeyOf);
    var rows := StampAll(batch, created, hash);
    forall i, j | 0 <= i < j < |rows|
      ensures rows[i].id != rows[j].id
    {
      if rows[i].id == rows[j].id {
        assert keys[i] == keys[j];
        OrdinalIncreases(keys, i, j);
      }
    }
  }

  /**
   Across snapshots: two stamped rows with the same `Sys_id` have the same
   `Sys_hash` exactly when their status (Aktuell) agrees.
   */
  lemma VersionHashTracksStatus(a: Located, oa: nat, ca: Instant, b: Located, ob: nat, cb: Instant, hash: Hasher)
    requires Injective(hash)
    requires Stamp(a, oa, ca, hash).id == Stamp(b, ob, cb, hash).id
    ensures Stamp(a, oa, ca, hash).hash == Stamp(b, ob, cb, hash).hash <==> a.status == b.status
  {
  }
}
