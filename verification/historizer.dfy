/**
 One historization run (`RobHistorizer.historize_rob` with `_preprocess_new_rob`,
 the review window's close and `_save_rob`) and the replay of all stored
 snapshots in file-name order (`main`).
 */
module Historizer {
  import opened Wrappers
  import opened Records
  import opened Seqs
  import opened Sorting
  import opened Catalogue
  import opened Identify
  import opened Reconcile

  /** The human check in the review window, which may edit any cell of the resolved batch. */
  type Review = seq<Resolved> -> seq<Resolved>

  /** A scraped report: its rows, its date (`Erstellt_am`) and the wall-clock time of the run. */
  datatype Snapshot = Snapshot(rows: seq<RawRow>, created: Instant, now: Instant)

  /** `sort_values(by=["Sys_aktualisiert_am", "Einlieferungsdatum"])`. */
  predicate SaveBefore(a: Row, b: Row)
  {
    a.updated < b.updated || (a.updated == b.updated && a.admitted <= b.admitted)
  }

  lemma SaveOrder()
    ensures TotalPreorder(SaveBefore)
  {
  }

  /** The order in which `rob.csv` is written. */
  function SortForSave(t: seq<Row>): (r: seq<Row>)
    ensures multiset(r) == multiset(t)
    ensures SortedBy(r, SaveBefore)
  {
    SaveOrder();
    SortBySorted(t, SaveBefore);
    SortBy(t, SaveBefore)
  }

  /**
   How a run ends: `rob.csv` written, `sys.exit(0)` because nothing is new, or an
   exception (an empty catalogue, the `Sys_id` assertion).
   */
  datatype Status = Saved | NothingNew | Raised(error: Error)

  /** The catalogue and the historized table as the files hold them after a run. */
  datatype Run = Run(catalogue: seq<Entry>, table: seq<Row>, status: Status)

  /**
   `_preprocess_new_rob` up to the review window's close: imputation, matching
   and coordinates, then the human edits. The window's close writes the catalogue
   from these rows.
   */
  function Reviewed(cat: seq<Entry>, snap: Snapshot, matcher: Matcher, review: Review): (r: Result<seq<Located>, Error>)
    requires PicksCandidate(matcher)
    ensures r.Failure? <==> |snap.rows| > 0 && |cat| == 0
    ensures r.Failure? ==> r.error == NoCatalogueAvailable
  {
    var resolved := Resolve(snap.rows, cat, matcher);
    if resolved.Failure? then Failure(resolved.error)
    else Success(Project(review(resolved.value), Relabel))
  }

  /** The whole preprocessing: the reviewed rows, identified, ending with the `Sys_id` check. */
  function Preprocess(cat: seq<Entry>, snap: Snapshot, matcher: Matcher, review: Review, hash: Hasher): (r: Result<seq<Identified>, Error>)
    requires PicksCandidate(matcher)
    ensures r == Failure(NoCatalogueAvailable) <==> |snap.rows| > 0 && |cat| == 0
    ensures r.Failure? ==> r.error == NoCatalogueAvailable || r.error == DuplicateIdentity
    ensures Injective(hash) ==> r != Failure(DuplicateIdentity)
    ensures r.Success? ==> DistinctIds(r.value)
  {
    var located := Reviewed(cat, snap, matcher, review);
    if located.Failure? then Failure(located.error)
    else
      assert Injective(hash) ==> Identify.Identify(located.value, snap.created, hash).Success? by {
        if Injective(hash) {
          IdentifyNeverFails(located.value, snap.created, hash);
        }
      }
      Identify.Identify(located.value, snap.created, hash)
  }

  /**
   One run. The catalogue is written when the review window closes, which is
   before the `Sys_id` assertion and before the no-change exit, so those outcomes
   still update it; `rob.csv` is written only when something is new, and then
   holds exactly the reconciled table of the preprocessed batch.
   */
  function HistorizeRob(prior: seq<Row>, cat: seq<Entry>, snap: Snapshot,
                        matcher: Matcher, review: Review, hash: Hasher): (run: Run)
    requires PicksCandidate(matcher)
    ensures run.status == Raised(NoCatalogueAvailable) <==> |snap.rows| > 0 && |cat| == 0
    ensures run.status.Raised? ==> run.status.error == NoCatalogueAvailable || run.status.error == DuplicateIdentity
    ensures Injective(hash) ==> run.status != Raised(DuplicateIdentity)
    ensures run.status == Raised(NoCatalogueAvailable) ==> run.catalogue == cat
    ensures forall e :: e in cat ==> e in run.catalogue
    ensures var b := Reviewed(cat, snap, matcher, review);
            b.Success? ==> forall e :: e in run.catalogue <==> e in cat || exists l :: l in b.value && TripleOf(l) == e
    ensures run.status != Raised(NoCatalogueAvailable) ==> NoDuplicates(run.catalogue) && SortedBy(run.catalogue, NameBefore)
    ensures var p := Preprocess(cat, snap, matcher, review, hash);
            && (run.status.Raised? <==> p.Failure?)
            && (p.Failure? ==> run.status == Raised(p.error))
            && (p.Success? ==> (run.status.Saved? <==> Reconcile.Reconcile(prior, p.value, snap.now).Updated?))
            && (p.Success? ==> multiset(run.table) == multiset(Reconcile.Reconcile(prior, p.value, snap.now).After(prior)))
            && (p.Success? ==> forall x :: x in p.value ==> x.hash in HashesOf(run.table))
    ensures !run.status.Saved? ==> run.table == prior
    ensures run.status.Saved? ==> |run.table| > |prior| && SortedBy(run.table, SaveBefore)
    ensures HashesOf(prior) <= HashesOf(run.table) && IdsOf(prior) <= IdsOf(run.table)
    ensures OneCurrentPerId(prior) ==> OneCurrentPerId(run.table)
  {
    var located := Reviewed(cat, snap, matcher, review);
    if located.Failure? then Run(cat, prior, Raised(located.error))
    else
      var catalogue := MergeCatalogue(cat, located.value);
      var identified := Preprocess(cat, snap, matcher, review, hash);
      if identified.Failure? then Run(catalogue, prior, Raised(identified.error))
      else
        var batch := identified.value;
        var outcome := Reconcile.Reconcile(prior, batch, snap.now);
        ReconcileRecordsBatch(prior, batch, snap.now);
        if outcome.NoChanges? then Run(catalogue, prior, NothingNew)
        else
          var saved := SortForSave(outcome.table);
          PermutedKeepsKeys(outcome.table, saved);
          assert OneCurrentPerId(prior) ==> OneCurrentPerId(saved) by {
            if OneCurrentPerId(prior) {
              ReconcileKeepsOneCurrent(prior, batch, snap.now);
              OneCurrentSub(outcome.table, saved);
            }
          }
          Run(catalogue, saved, Saved)
  }

  /**
   `main`: the stored reports, in file-name order, each historized against the
   files the previous run wrote, given a scraper that reads a stored report.
   `sys.exit(0)` and an exception end the process, so the first run that does
   not save ends the replay.
   */
  function Replay(t: seq<Row>, cat: seq<Entry>, snaps: seq<Snapshot>,
                  matcher: Matcher, review: Review, hash: Hasher): (r: Run)
    requires PicksCandidate(matcher)
    ensures forall e :: e in cat ==> e in r.catalogue
    ensures HashesOf(t) <= HashesOf(r.table) && IdsOf(t) <= IdsOf(r.table)
    ensures |r.table| >= |t|
    ensures OneCurrentPerId(t) ==> OneCurrentPerId(r.table)
    decreases |snaps|
  {
    if |snaps| == 0 then Run(cat, t, NothingNew)
    else
      var run := HistorizeRob(t, cat, snaps[0], matcher, review, hash);
      if run.status.Saved? then Replay(run.table, run.catalogue, snaps[1..], matcher, review, hash)
      else run
  }
}
