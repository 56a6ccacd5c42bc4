/**
 Feature engineering of the historized table (`RobEngineer`): the split at
 `latest_update` between the engineered table and the newer historized rows,
 the selective geoparsing of the newer rows, and the review window's close, which
 saves the engineered table and rebuilds the catalogue from it.
 */
module Engineer {
  import opened Wrappers
  import opened Records
  import opened Seqs
  import opened Sorting
  import opened Catalogue
  import opened Historizer

  /** Rows already engineered: `Sys_aktualisiert_am <= latest_update`. */
  function NotAfter(latest: Instant): Row -> bool
  {
    (r: Row) => r.updated <= latest
  }

  /** Rows historized since: `Sys_aktualisiert_am > latest_update`. */
  function After(latest: Instant): Row -> bool
  {
    (r: Row) => r.updated > latest
  }

  lemma FilterFiltered(s: seq<Row>, p: Row -> bool, q: Row -> bool)
    requires forall r :: p(r) ==> q(r)
    ensures Filter(Filter(s, p), q) == Filter(s, p)
  {
    var f := Filter(s, p);
    forall i | 0 <= i < |f|
      ensures q(f[i])
    {
      assert f[i] in f;
    }
    FilterAll(f, q);
  }

  lemma FilterDisjoint(s: seq<Row>, p: Row -> bool, q: Row -> bool)
    requires forall r :: p(r) ==> !q(r)
    ensures Filter(Filter(s, p), q) == []
  {
    var f := Filter(s, p);
    forall i | 0 <= i < |f|
      ensures !q(f[i])
    {
      assert f[i] in f;
    }
    FilterNone(f, q);
  }

  /** `__init__`: the engineered rows up to `latest_update`, then the historized rows after it. */
  function Combine(historized: seq<Row>, engineered: seq<Row>, latest: Instant): (c: seq<Row>)
    ensures forall r :: r in c <==> (r in engineered && r.updated <= latest) || (r in historized && r.updated > latest)
    ensures |c| <= |engineered| + |historized|
    ensures forall i, j :: 0 <= i < j < |c| && c[j].updated <= latest ==> c[i].updated <= latest
  {
    var e := Filter(engineered, NotAfter(latest));
    var h := Filter(historized, After(latest));
    assert forall i :: 0 <= i < |e| + |h| && i >= |e| ==> (e + h)[i] in h;
    assert forall i :: 0 <= i < |e| ==> (e + h)[i] in e;
    e + h
  }

  /**
   Splitting the combined table at `latest_update` again gives back exactly the
   engineered part and the historized part, each in its original order.
   */
  lemma CombineSplit(historized: seq<Row>, engineered: seq<Row>, latest: Instant)
    ensures Filter(Combine(historized, engineered, latest), NotAfter(latest)) == Filter(engineered, NotAfter(latest))
    ensures Filter(Combine(historized, engineered, latest), After(latest)) == Filter(historized, After(latest))
  {
    var e := Filter(engineered, NotAfter(latest));
    var h := Filter(historized, After(latest));
    FilterConcat(e, h, NotAfter(latest));
    FilterConcat(e, h, After(latest));
    FilterFiltered(engineered, NotAfter(latest), NotAfter(latest));
    FilterDisjoint(historized, After(latest), NotAfter(latest));
    FilterFiltered(historized, After(latest), After(latest));
    FilterDisjoint(engineered, NotAfter(latest), After(latest));
  }

  /** A row with the "Mapped Fundort" column, which is NaN (`None`) until geoparsing sets it. */
  datatype Engineered = Engineered(row: Row, mapped: Option<string>)

  /**
   The rows `_geoparse_rob` remaps: `Sys_aktualisiert_am >= latest_update` (note
   `>=`, where the split uses `>`) and a Fundort that is not null.
   */
  predicate Remapped(r: Row, latest: Instant)
  {
    r.updated >= latest && r.place.Some?
  }

  /** What geoparsing promises about one row. */
  ghost predicate Geoparsed(r: Row, e: Engineered, cat: seq<Entry>, matcher: Matcher, latest: Instant)
  {
    if Remapped(r, latest) then
      && e.mapped == Some(matcher(r.place.value, Names(cat)))
      && e.mapped.value in Names(cat)
      && (exists k :: 0 <= k < |cat| && cat[k].name == e.mapped.value
                      && e.row == r.(lat := Some(cat[k].lat), long := Some(cat[k].long))
                      && forall j :: k < j < |cat| ==> cat[j].name != e.mapped.value)
    else
      e == Engineered(r, None)
  }

  function GeoparseRow(r: Row, cat: seq<Entry>, matcher: Matcher, latest: Instant): (e: Engineered)
    requires PicksCandidate(matcher)
    requires Remapped(r, latest) ==> |cat| > 0
    ensures Geoparsed(r, e, cat, matcher, latest)
  {
    if Remapped(r, latest) then
      var mapped := matcher(r.place.value, Names(cat));
      var e := Locate(cat, mapped);
      Engineered(r.(lat := Some(e.lat), long := Some(e.long)), Some(mapped))
    else Engineered(r, None)
  }

  /**
   `_geoparse_rob`. The first row to remap indexes the empty match list of an
   empty catalogue; rows are only looked up when there is one to remap.
   */
  function Geoparse(t: seq<Row>, cat: seq<Entry>, matcher: Matcher, latest: Instant): (r: Result<seq<Engineered>, Error>)
    requires PicksCandidate(matcher)
    ensures r.Failure? <==> |cat| == 0 && exists i :: 0 <= i < |t| && Remapped(t[i], latest)
    ensures r.Failure? ==> r.error == NoCatalogueAvailable
    ensures r.Success? ==> |r.value| == |t| && forall i :: 0 <= i < |t| ==> Geoparsed(t[i], r.value[i], cat, matcher, latest)
  {
    if |cat| == 0 && exists i :: 0 <= i < |t| && Remapped(t[i], latest) then Failure(NoCatalogueAvailable)
    else Success(seq(|t|, i requires 0 <= i < |t| => GeoparseRow(t[i], cat, matcher, latest)))
  }

  /**
   The review window's close, as written: Fundort is dropped and Mapped Fundort
   takes its name, so only the place changes and an unmapped row loses it.
   */
  function RenameAsWritten(e: Engineered): (r: Row)
    ensures r.place == e.mapped
    ensures r.(place := e.row.place) == e.row
  {
    e.row.(place := e.mapped)
  }

  /** The close as evidently intended: a row that was not remapped keeps its Fundort. */
  function Rename(e: Engineered): (r: Row)
    ensures r.place.Some? <==> e.row.place.Some? || e.mapped.Some?
    ensures e.mapped.None? ==> r == e.row
    ensures e.mapped.Some? ==> r == RenameAsWritten(e)
  {
    if e.mapped.Some? then e.row.(place := e.mapped) else e.row
  }

  /** The human check in the review window, which may edit any cell. */
  type EngReview = seq<Engineered> -> seq<Engineered>

  /** A review window closed without edits. */
  function NoEdits(s: seq<Engineered>): seq<Engineered>
  {
    s
  }

  /** The files the close writes: `rob_engineered.csv` and the rebuilt catalogue. */
  datatype Engineering = Engineering(table: seq<Row>, catalogue: seq<Entry>)

  /**
   The close: the renamed rows sorted by (`Sys_aktualisiert_am`,
   `Einlieferungsdatum`), and the catalogue rebuilt from their distinct complete
   (Fundort, Lat, Long) triples, replacing the previous one.
   */
  function SaveEngineered(edited: seq<Engineered>, rename: Engineered -> Row): (out: Engineering)
    ensures multiset(out.table) == multiset(Project(edited, rename))
    ensures SortedBy(out.table, SaveBefore)
    ensures forall e :: e in out.catalogue <==> exists r :: r in out.table && HasTriple(r, e)
    ensures NoDuplicates(out.catalogue) && SortedBy(out.catalogue, NameBefore)
  {
    var renamed := Project(edited, rename);
    var table := SortForSave(renamed);
    var catalogue := RebuildCatalogue(renamed);
    assert forall e :: e in catalogue <==> exists r :: r in table && HasTriple(r, e) by {
      forall e
        ensures e in catalogue <==> exists r :: r in table && HasTriple(r, e)
      {
        if e in catalogue {
          var i :| 0 <= i < |renamed| && HasTriple(renamed[i], e);
          assert renamed[i] in multiset(table);
        }
        if exists r :: r in table && HasTriple(r, e) {
          var r :| r in table && HasTriple(r, e);
          assert r in multiset(renamed);
          var i :| 0 <= i < |renamed| && renamed[i] == r;
        }
      }
    }
    Engineering(table, catalogue)
  }

  /**
   `engineer_rob` on the two files and the catalogue. The window's close is a
   parameter: `RenameAsWritten` gives the program as written, `Rename` the
   corrected one.
   */
  function EngineerRob(historized: seq<Row>, engineered: seq<Row>, latest: Instant, cat: seq<Entry>,
                       matcher: Matcher, review: EngReview, close: Engineered -> Row): (r: Result<Engineering, Error>)
    requires PicksCandidate(matcher)
    ensures r.Failure? <==> |cat| == 0 && exists x :: x in Combine(historized, engineered, latest) && Remapped(x, latest)
    ensures r.Failure? ==> r.error == NoCatalogueAvailable
    ensures r.Success? ==> SortedBy(r.value.table, SaveBefore)
  {
    var combined := Combine(historized, engineered, latest);
    assert (exists x :: x in combined && Remapped(x, latest))
           <==> exists i :: 0 <= i < |combined| && Remapped(combined[i], latest);
    var geoparsed := Geoparse(combined, cat, matcher, latest);
    if geoparsed.Failure? then Failure(geoparsed.error)
    else Success(SaveEngineered(review(geoparsed.value), close))
  }

  /**
   Without manual edits, no row loses its finding place: every row of the
   combined table that was not remapped is saved unchanged, and its complete
   (Fundort, Lat, Long) triple stays in the rebuilt catalogue.
   */
  lemma EngineerKeepsPlaces(historized: seq<Row>, engineered: seq<Row>, latest: Instant, cat: seq<Entry>,
                            matcher: Matcher, x: Row, e: Entry)
    requires PicksCandidate(matcher)
    requires x in Combine(historized, engineered, latest) && !Remapped(x, latest)
    ensures var r := EngineerRob(historized, engineered, latest, cat, matcher, NoEdits, Rename);
            r.Success? ==> x in r.value.table && (HasTriple(x, e) ==> e in r.value.catalogue)
  {
    if EngineerRob(historized, engineered, latest, cat, matcher, NoEdits, Rename).Failure? {
      return;
    }
    var combined := Combine(historized, engineered, latest);
    var g := Geoparse(combined, cat, matcher, latest).value;
    var out := SaveEngineered(g, Rename);
    var i :| 0 <= i < |combined| && combined[i] == x;
    assert g[i] == Engineered(x, None);
    assert Project(g, Rename)[i] == x;
    assert x in multiset(out.table);
  }

  /**
   Whatever the manual edits, the as-written close saves every row left unmapped
   with its place removed.
   */
  lemma AsWrittenLosesUnmapped(edited: seq<Engineered>)
    ensures forall i :: 0 <= i < |edited| && edited[i].mapped.None? ==>
              edited[i].row.(place := None) in SaveEngineered(edited, RenameAsWritten).table
  {
    forall i | 0 <= i < |edited| && edited[i].mapped.None?
      ensures edited[i].row.(place := None) in SaveEngineered(edited, RenameAsWritten).table
    {
      SavedRow(edited, RenameAsWritten, i);
    }
  }

  /** Saving a single row writes that row alone, and a catalogue of its complete triple only. */
  lemma SaveSingle(e: Engineered, rename: Engineered -> Row)
    ensures SaveEngineered([e], rename).table == [rename(e)]
    ensures forall t :: t in SaveEngineered([e], rename).catalogue <==> HasTriple(rename(e), t)
    ensures SaveEngineered([e], rename).catalogue == CompleteTriples([rename(e)])
  {
    var out := SaveEngineered([e], rename);
    assert Project([e], rename) == [rename(e)];
    assert multiset(out.table) == multiset{rename(e)};
    assert |out.table| == 1 && out.table[0] in multiset(out.table);
    var c := CompleteTriples([rename(e)]);
    assert CompleteTriples([rename(e)][1..]) == CompleteTriples([]) == [];
    assert |c| <= 1;
    DedupOfDistinct(c);
    var sorted := SortByName(c);
    assert |sorted| == |multiset(sorted)| == |c|;
    assert |c| == 1 ==> sorted[0] in multiset(c);
  }

  /**
   The as-written pass, without manual edits, loses the place of every row older
   than `latest_update`: the row is saved without Fundort, and its (Fundort, Lat,
   Long) triple stays in the rebuilt catalogue only if some remapped row was
   matched to the same name with the same coordinates.
   */
  lemma AsWrittenDropsPlace(historized: seq<Row>, engineered: seq<Row>, latest: Instant, cat: seq<Entry>,
                            matcher: Matcher, x: Row)
    requires PicksCandidate(matcher)
    requires x in Combine(historized, engineered, latest) && x.updated < latest
    requires x.place.Some? && x.lat.Some? && x.long.Some?
    ensures var g := Geoparse(Combine(historized, engineered, latest), cat, matcher, latest);
            var r := EngineerRob(historized, engineered, latest, cat, matcher, NoEdits, RenameAsWritten);
            var tri := Entry(x.place.value, x.lat.value, x.long.value);
            r.Success? ==>
              && x.(place := None) in r.value.table
              && (tri in r.value.catalogue <==>
                    exists j :: 0 <= j < |g.value| && g.value[j].mapped.Some? && HasTriple(RenameAsWritten(g.value[j]), tri))
  {
    var r := EngineerRob(historized, engineered, latest, cat, matcher, NoEdits, RenameAsWritten);
    if r.Failure? {
      return;
    }
    var combined := Combine(historized, engineered, latest);
    var g := Geoparse(combined, cat, matcher, latest).value;
    assert r.value == SaveEngineered(g, RenameAsWritten);
    var i :| 0 <= i < |combined| && combined[i] == x;
    assert g[i] == Engineered(x, None) by {
      assert Geoparsed(combined[i], g[i], cat, matcher, latest);
    }
    SavedRow(g, RenameAsWritten, i);
    AsWrittenCatalogue(g, Entry(x.place.value, x.lat.value, x.long.value));
  }

  /** Every closed row is saved. */
  lemma SavedRow(g: seq<Engineered>, close: Engineered -> Row, i: nat)
    requires i < |g|
    ensures close(g[i]) in SaveEngineered(g, close).table
  {
    assert Project(g, close)[i] in multiset(SaveEngineered(g, close).table);
  }

  /**
   After the as-written close a triple is catalogued exactly when some remapped
   row carries it: an unmapped row has no place left to contribute.
   */
  lemma AsWrittenCatalogue(g: seq<Engineered>, tri: Entry)
    ensures tri in SaveEngineered(g, RenameAsWritten).catalogue <==>
            exists j :: 0 <= j < |g| && g[j].mapped.Some? && HasTriple(RenameAsWritten(g[j]), tri)
  {
    var renamed := Project(g, RenameAsWritten);
    var out := SaveEngineered(g, RenameAsWritten);
    if tri in out.catalogue {
      var y :| y in out.table && HasTriple(y, tri);
      assert y in multiset(renamed);
      var j :| 0 <= j < |renamed| && renamed[j] == y;
      assert g[j].mapped.Some? && HasTriple(RenameAsWritten(g[j]), tri);
    }
    if exists j :: 0 <= j < |g| && g[j].mapped.Some? && HasTriple(RenameAsWritten(g[j]), tri) {
      var j :| 0 <= j < |g| && g[j].mapped.Some? && HasTriple(RenameAsWritten(g[j]), tri);
      SavedRow(g, RenameAsWritten, j);
    }
  }

  /**
   In any table, a row older than `latest_update` is geoparsed to itself,
   unmapped; a table of such rows alone geoparses even against an empty catalogue.
   */
  lemma GeoparseLeavesOld(t: seq<Row>, i: nat, latest: Instant, cat: seq<Entry>, matcher: Matcher)
    requires PicksCandidate(matcher) && i < |t| && t[i].updated < latest
    ensures var g := Geoparse(t, cat, matcher, latest);
            g.Success? ==> g.value[i] == Engineered(t[i], None)
    ensures (forall j :: 0 <= j < |t| ==> t[j].updated < latest) ==> Geoparse(t, cat, matcher, latest).Success?
  {
    var g := Geoparse(t, cat, matcher, latest);
    if g.Success? {
      assert Geoparsed(t[i], g.value[i], cat, matcher, latest);
    }
  }

  /**
   A concrete instance: an engineered table holding one pup found at
   Friedrichskoog (54, 8), last updated at 0, engineered again with
   `latest_update` = 1. As written, the pass saves it without a place and writes
   an empty catalogue; the corrected pass keeps both.
   */
  lemma AsWrittenDropsFriedrichskoog(cat: seq<Entry>, matcher: Matcher)
    requires PicksCandidate(matcher)
    ensures var x := Row("a1", Some("Friedrichskoog"), Some(54), Some(8), 0, "Seehund", "Reha", 0, false, 0, "h1");
            && EngineerRob([], [x], 1, cat, matcher, NoEdits, RenameAsWritten)
               == Success(Engineering([x.(place := None)], []))
            && EngineerRob([], [x], 1, cat, matcher, NoEdits, Rename)
               == Success(Engineering([x], [Entry("Friedrichskoog", 54, 8)]))
  {
    var x := Row("a1", Some("Friedrichskoog"), Some(54), Some(8), 0, "Seehund", "Reha", 0, false, 0, "h1");
    var e := Engineered(x, None);
    EngineerSingleOld(x, 1, cat, matcher, RenameAsWritten);
    EngineerSingleOld(x, 1, cat, matcher, Rename);
    assert CompleteTriples([x.(place := None)]) == [] by {
      assert [x.(place := None)][1..] == [];
    }
    assert CompleteTriples([x]) == [Entry("Friedrichskoog", 54, 8)] by {
      assert [x][1..] == [];
    }
  }

  /** The pass over an engineered table of one row older than `latest_update` saves that row, closed. */
  lemma EngineerSingleOld(x: Row, latest: Instant, cat: seq<Entry>, matcher: Matcher, close: Engineered -> Row)
    requires PicksCandidate(matcher) && x.updated < latest
    ensures var saved := close(Engineered(x, None));
            EngineerRob([], [x], latest, cat, matcher, NoEdits, close)
              == Success(Engineering([saved], CompleteTriples([saved])))
  {
    assert Combine([], [x], latest) == [x] by {
      assert Filter([x], NotAfter(latest)) == [x];
      assert Filter([], After(latest)) == [];
    }
    GeoparseLeavesOld([x], 0, latest, cat, matcher);
    var g := Geoparse([x], cat, matcher, latest);
    assert forall j :: 0 <= j < |[x]| ==> [x][j].updated < latest;
    assert g.Success? && |g.value| == 1 && g.value[0] == Engineered(x, None);
    assert g.value == [Engineered(x, None)];
    SaveSingle(Engineered(x, None), close);
  }
}
