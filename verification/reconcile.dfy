/**
 Merging a preprocessed batch into the historized table (`RobHistorizer.historize_rob`)
 as a type-2 slowly changing dimension: rows whose `Sys_hash` is already known are
 skipped, a current row with the same `Sys_id` is flagged deleted, and the new
 row is appended as current. Rows are never removed.
 */
module Reconcile {
  import opened Wrappers
  import opened Records
  import opened Seqs

  function HashesOf(t: seq<Row>): set<Digest>
  {
    set r | r in t :: r.hash
  }

  function IdsOf(t: seq<Row>): set<Digest>
  {
    set r | r in t :: r.id
  }

  function BatchIds(b: seq<Identified>): set<Digest>
  {
    set x | x in b :: x.id
  }

  /** The negation of `Sys_hash.isin(old["Sys_hash"])`. */
  function UnknownTo(known: set<Digest>): Identified -> bool
  {
    (x: Identified) => x.hash !in known
  }

  /** The batch rows whose `Sys_hash` occurs nowhere in the table, current or deleted. */
  function Candidates(prior: seq<Row>, batch: seq<Identified>): (c: seq<Identified>)
    ensures forall x :: x in c <==> x in batch && x.hash !in HashesOf(prior)
    ensures multiset(c) <= multiset(batch)
  {
    Filter(batch, UnknownTo(HashesOf(prior)))
  }

  /** A new row with `Sys_geloescht` = 0 and `Sys_aktualisiert_am` = now. */
  function AsCurrent(x: Identified, now: Instant): Row
  {
    Row(x.id, Some(x.place), Some(x.lat), Some(x.long), x.admitted, x.species, x.status,
        x.created, false, now, x.hash)
  }

  /** A row flagged `Sys_geloescht` = 1 at `now`. */
  function Superseded(r: Row, now: Instant): Row
  {
    r.(deleted := true, updated := now)
  }

  /** The masked assignment that flags the current rows of `id` as deleted. */
  function SoftDelete(t: seq<Row>, id: Digest, now: Instant): (r: seq<Row>)
    ensures |r| == |t|
    ensures forall i :: 0 <= i < |t| ==>
              r[i] == if Current(t[i]) && t[i].id == id then Superseded(t[i], now) else t[i]
  {
    seq(|t|, i requires 0 <= i < |t| =>
      if Current(t[i]) && t[i].id == id then Superseded(t[i], now) else t[i])
  }

  /**
   One iteration of the loop: if the id occurred in the table before the loop,
   its current rows are flagged, then the candidate is appended.
   */
  function Step(t: seq<Row>, x: Identified, knownIds: set<Digest>, now: Instant): seq<Row>
  {
    (if x.id in knownIds then SoftDelete(t, x.id, now) else t) + [AsCurrent(x, now)]
  }

  /**
   The whole loop. Rows already in `t` are flagged exactly when they are current
   and some candidate carries their (previously known) id; each appended row is
   current unless a later candidate of the same id flagged it again, which
   distinct ids rule out.
   */
  function Append(t: seq<Row>, cands: seq<Identified>, knownIds: set<Digest>, now: Instant): (r: seq<Row>)
    ensures |r| == |t| + |cands|
    ensures forall i :: 0 <= i < |t| ==>
              r[i] == if Current(t[i]) && t[i].id in knownIds && t[i].id in BatchIds(cands)
                      then Superseded(t[i], now) else t[i]
    ensures forall j :: 0 <= j < |cands| ==>
              r[|t| + j] == AsCurrent(cands[j], now) || r[|t| + j] == Superseded(AsCurrent(cands[j], now), now)
    ensures DistinctIds(cands) ==> forall j :: 0 <= j < |cands| ==> r[|t| + j] == AsCurrent(cands[j], now)
    decreases |cands|
  {
    if |cands| == 0 then t
    else
      var rest := cands[1..];
      assert BatchIds(cands) == {cands[0].id} + BatchIds(rest) by {
        assert cands == [cands[0]] + rest;
      }
      assert DistinctIds(cands) ==> cands[0].id !in BatchIds(rest);
      assert DistinctIds(cands) ==> DistinctIds(rest);
      Append(Step(t, cands[0], knownIds, now), rest, knownIds, now)
  }

  datatype Outcome = NoChanges | Updated(table: seq<Row>)
  {
    /** The table on disk afterwards: a run that stops leaves `prior` as it was. */
    function After(prior: seq<Row>): seq<Row>
    {
      if NoChanges? then prior else table
    }
  }

  /**
   `historize_rob` from the batch on: stop when every new `Sys_hash` is already
   known (`sys.exit(0)` in the source), otherwise run the loop over the candidates.
   */
  function Reconcile(prior: seq<Row>, batch: seq<Identified>, now: Instant): (o: Outcome)
    ensures o.NoChanges? <==> forall x :: x in batch ==> x.hash in HashesOf(prior)
  {
    var cands := Candidates(prior, batch);
    if |cands| == 0 then NoChanges
    else Updated(Append(prior, cands, IdsOf(prior), now))
  }

  /**
   Append-only: the result is the prior table, with only the current rows of a
   re-observed id flagged deleted at `now`, followed by one current row per batch
   row whose `Sys_hash` was unknown.
   */
  lemma ReconcileAppendOnly(prior: seq<Row>, batch: seq<Identified>, now: Instant)
    requires DistinctIds(batch)
    ensures var t := Reconcile(prior, batch, now).After(prior);
            var c := Candidates(prior, batch);
            && |t| == |prior| + |c|
            && (forall i :: 0 <= i < |prior| ==>
                  t[i] == if Current(prior[i]) && prior[i].id in BatchIds(c)
                          then Superseded(prior[i], now) else prior[i])
            && (forall j :: 0 <= j < |c| ==> t[|prior| + j] == AsCurrent(c[j], now))
  {
    var c := Candidates(prior, batch);
    DistinctIdsSub(batch, c);
    forall i | 0 <= i < |prior|
      ensures prior[i].id in IdsOf(prior)
    {
      assert prior[i] in prior;
    }
  }

  /** The shape `ReconcileAppendOnly` describes keeps at most one current row per `Sys_id`. */
  lemma AppendedKeepsOneCurrent(prior: seq<Row>, c: seq<Identified>, t: seq<Row>, now: Instant)
    requires OneCurrentPerId(prior) && DistinctIds(c)
    requires |t| == |prior| + |c|
    requires forall i :: 0 <= i < |prior| ==>
               t[i] == if Current(prior[i]) && prior[i].id in BatchIds(c) then Superseded(prior[i], now) else prior[i]
    requires forall j :: 0 <= j < |c| ==> t[|prior| + j] == AsCurrent(c[j], now)
    ensures OneCurrentPerId(t)
  {
    var n := |prior|;
    forall i, j | 0 <= i < j < |t| && Current(t[i]) && Current(t[j])
      ensures t[i].id != t[j].id
    {
      if j < n {
        assert t[i] == prior[i] && t[j] == prior[j];
      } else if i < n {
        assert t[i] == prior[i] && prior[i].id !in BatchIds(c);
        assert t[j].id == c[j - n].id;
        assert c[j - n] in c;
      } else {
        assert t[i].id == c[i - n].id && t[j].id == c[j - n].id;
      }
    }
  }

  /** The invariant survives: at most one current row per `Sys_id`. */
  lemma ReconcileKeepsOneCurrent(prior: seq<Row>, batch: seq<Identified>, now: Instant)
    requires OneCurrentPerId(prior) && DistinctIds(batch)
    ensures OneCurrentPerId(Reconcile(prior, batch, now).After(prior))
  {
    var c := Candidates(prior, batch);
    ReconcileAppendOnly(prior, batch, now);
    DistinctIdsSub(batch, c);
    AppendedKeepsOneCurrent(prior, c, Reconcile(prior, batch, now).After(prior), now);
  }

  /**
   Nothing is forgotten: every `Sys_hash` of the prior table survives (flagging
   keeps it), and every batch row's `Sys_hash` is in the result.
   */
  lemma ReconcileRecordsBatch(prior: seq<Row>, batch: seq<Identified>, now: Instant)
    ensures HashesOf(prior) <= HashesOf(Reconcile(prior, batch, now).After(prior))
    ensures IdsOf(prior) <= IdsOf(Reconcile(prior, batch, now).After(prior))
    ensures forall x :: x in batch ==> x.hash in HashesOf(Reconcile(prior, batch, now).After(prior))
  {
    var t := Reconcile(prior, batch, now).After(prior);
    var c := Candidates(prior, batch);
    forall r | r in prior
      ensures r.hash in HashesOf(t) && r.id in IdsOf(t)
    {
      var i :| 0 <= i < |prior| && prior[i] == r;
      assert t[i].hash == r.hash && t[i].id == r.id;
      assert t[i] in t;
    }
    forall x | x in batch
      ensures x.hash in HashesOf(t)
    {
      if x.hash !in HashesOf(prior) {
        assert x in c;
        var j :| 0 <= j < |c| && c[j] == x;
        assert t[|prior| + j].hash == x.hash;
        assert t[|prior| + j] in t;
      }
    }
  }

  /** Reconciling the same batch again changes nothing. */
  lemma ReconcileIdempotent(prior: seq<Row>, batch: seq<Identified>, now: Instant, later: Instant)
    ensures Reconcile(Reconcile(prior, batch, now).After(prior), batch, later).NoChanges?
  {
    ReconcileRecordsBatch(prior, batch, now);
  }

  /**
   A status change of a known animal, in any table: every current row of its
   `Sys_id` is flagged, nothing else changes, and the new version is appended as
   the only current row of that id.
   */
  lemma StatusChangeSupersedes(t: seq<Row>, r: Row, y: Identified, now: Instant)
    requires r in t && Current(r) && y.id == r.id && y.hash !in HashesOf(t)
    ensures Reconcile(t, [y], now) == Updated(SoftDelete(t, y.id, now) + [AsCurrent(y, now)])
    ensures Superseded(r, now) in Reconcile(t, [y], now).table
    ensures forall i :: 0 <= i < |t| ==> !(Current(Reconcile(t, [y], now).table[i]) && Reconcile(t, [y], now).table[i].id == y.id)
  {
    assert Candidates(t, [y]) == [y];
    assert y.id in IdsOf(t);
    var out := SoftDelete(t, y.id, now) + [AsCurrent(y, now)];
    assert Append(t, [y], IdsOf(t), now) == Append(out, [], IdsOf(t), now) == out;
    var i :| 0 <= i < |t| && t[i] == r;
    assert out[i] == Superseded(r, now);
  }

  /** Reordering a table, as saving it does, keeps its hashes and ids. */
  lemma PermutedKeepsKeys(a: seq<Row>, b: seq<Row>)
    requires multiset(a) == multiset(b)
    ensures HashesOf(a) == HashesOf(b) && IdsOf(a) == IdsOf(b)
  {
    forall r
      ensures r in a <==> r in b
    {
      assert r in a <==> r in multiset(a);
      assert r in b <==> r in multiset(b);
    }
  }
}
