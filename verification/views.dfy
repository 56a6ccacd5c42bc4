/**
 The dashboard's read-side aggregations over the historized table
 (`app/create_app_assets.py`): the latest status per animal, weekly admissions
 per species, and weekly admissions per coordinate pair.
 */
module Views {
  import opened Wrappers
  import opened Records
  import opened Seqs
  import opened Catalogue
  import opened Reconcile

  const SECONDS_PER_DAY: int := 86400

  /** Midnight of an admission date, to compare it with a timestamp bound. */
  function DayStart(d: Day): Instant
  {
    d * SECONDS_PER_DAY
  }

  function IdOf(r: Row): Digest
  {
    r.id
  }

  function StatusOf(r: Row): string
  {
    r.status
  }

  // ---------------------------------------------------------------- part to whole

  /** The rows `create_part_to_whole` selects. */
  predicate InSlice(r: Row, minDate: Instant, maxDate: Instant)
  {
    DayStart(r.admitted) >= minDate && r.created < maxDate && !r.deleted
  }

  function SliceOf(minDate: Instant, maxDate: Instant): Row -> bool
  {
    (r: Row) => InSlice(r, minDate, maxDate)
  }

  function Slice(t: seq<Row>, minDate: Instant, maxDate: Instant): (s: seq<Row>)
    ensures forall r :: r in s <==> r in t && InSlice(r, minDate, maxDate)
    ensures multiset(s) <= multiset(t)
  {
    Filter(t, SliceOf(minDate, maxDate))
  }

  /**
   `groupby("Sys_id").last()` on the slice: one row per `Sys_id`, the last of that
   id's rows in table order. Both remaining columns are never null, so the last
   non-null value of each is the value in that row.
   */
  function LatestById(s: seq<Row>): (r: seq<Row>)
    ensures forall k :: 0 <= k < |r| ==> r[k] in s
  {
    var ids := Project(s, IdOf);
    var distinct := Dedup(ids);
    seq(|distinct|, k requires 0 <= k < |distinct| => s[LastIndexOf(ids, distinct[k])])
  }

  lemma LatestByIdIds(s: seq<Row>)
    ensures Project(LatestById(s), IdOf) == Dedup(Project(s, IdOf))
  {
    var ids := Project(s, IdOf);
    var distinct := Dedup(ids);
    var r := LatestById(s);
    forall k | 0 <= k < |r|
      ensures r[k].id == distinct[k]
    {
      var i := LastIndexOf(ids, distinct[k]);
      assert ids[i] == s[i].id;
    }
  }

  lemma LatestByIdLast(s: seq<Row>, k: int)
    requires 0 <= k < |LatestById(s)|
    ensures exists i :: 0 <= i < |s| && LatestById(s)[k] == s[i] && forall j :: i < j < |s| ==> s[j].id != s[i].id
  {
    var ids := Project(s, IdOf);
    var distinct := Dedup(ids);
    var i := LastIndexOf(ids, distinct[k]);
    assert LatestById(s)[k] == s[i];
    forall j | i < j < |s|
      ensures s[j].id != s[i].id
    {
      assert ids[j] == s[j].id && ids[i] == s[i].id;
    }
  }

  lemma LatestByIdCovers(s: seq<Row>, x: Row)
    requires x in s
    ensures exists k :: 0 <= k < |LatestById(s)| && LatestById(s)[k].id == x.id
  {
    var ids := Project(s, IdOf);
    var i :| 0 <= i < |s| && s[i] == x;
    assert ids[i] == x.id;
    assert x.id in ids;
    assert x.id in Dedup(ids);
    var k :| 0 <= k < |Dedup(ids)| && Dedup(ids)[k] == x.id;
    LatestByIdIds(s);
    assert Project(LatestById(s), IdOf)[k] == x.id;
  }

  /** The merge keys (`Erstellt_am`, `Sys_id`, `Sys_geloescht`) of a row. */
  function SameKey(l: Row): Row -> bool
  {
    (r: Row) => r.created == l.created && r.id == l.id && r.deleted == l.deleted
  }

  /**
   The left merge of the latest rows with the whole table: every table row that
   agrees with a latest row on the merge keys, grouped by latest row.
   */
  function MergeBack(latest: seq<Row>, t: seq<Row>): seq<Row>
  {
    if |latest| == 0 then []
    else Filter(t, SameKey(latest[0])) + MergeBack(latest[1..], t)
  }

  /** Every merged row is a table row that agrees with some latest row on the merge keys. */
  lemma {:induction false} MergeBackFrom(latest: seq<Row>, t: seq<Row>)
    ensures forall r :: r in MergeBack(latest, t) ==> r in t && exists l :: l in latest && SameKey(l)(r)
    decreases |latest|
  {
    if |latest| > 0 {
      MergeBackFrom(latest[1..], t);
      forall r | r in MergeBack(latest, t)
        ensures r in t && exists l :: l in latest && SameKey(l)(r)
      {
        if r in Filter(t, SameKey(latest[0])) {
          assert latest[0] in latest;
        } else {
          var l :| l in latest[1..] && SameKey(l)(r);
          assert l in latest;
        }
      }
    }
  }

  /** `create_part_to_whole`: how many rows of each status (`Aktuell`) the merge yields. */
  function PartToWhole(t: seq<Row>, minDate: Instant, maxDate: Instant): (counts: multiset<string>)
    ensures |Slice(t, minDate, maxDate)| == 0 ==> counts == multiset{}
    ensures forall a :: a in counts ==> exists r :: r in t && !r.deleted && r.status == a
  {
    var s := Slice(t, minDate, maxDate);
    var m := MergeBack(LatestById(s), t);
    MergedAreCurrent(s, t, minDate, maxDate);
    assert |s| == 0 ==> |m| == 0 by {
      if |s| == 0 {
        assert Project(s, IdOf) == [];
      }
    }
    multiset(Project(m, StatusOf))
  }

  /** Merging rows that are not deleted back only finds rows that are not deleted. */
  lemma MergeKeepsFlag(latest: seq<Row>, t: seq<Row>)
    requires forall l :: l in latest ==> !l.deleted
    ensures forall r :: r in MergeBack(latest, t) ==> r in t && !r.deleted
  {
    MergeBackFrom(latest, t);
    forall r | r in MergeBack(latest, t)
      ensures r in t && !r.deleted
    {
      var l :| l in latest && SameKey(l)(r);
    }
  }

  /** The merge only yields rows that are current, so every status counted is a current row's. */
  lemma {:induction false} MergedAreCurrent(s: seq<Row>, t: seq<Row>, minDate: Instant, maxDate: Instant)
    requires s == Slice(t, minDate, maxDate)
    ensures forall a :: a in multiset(Project(MergeBack(LatestById(s), t), StatusOf)) ==>
              exists r :: r in t && !r.deleted && r.status == a
  {
    var latest := LatestById(s);
    forall l | l in latest
      ensures !l.deleted
    {
      var k :| 0 <= k < |latest| && latest[k] == l;
      assert l in s;
    }
    MergeKeepsFlag(latest, t);
    var m := MergeBack(latest, t);
    var statuses := Project(m, StatusOf);
    forall a | a in multiset(statuses)
      ensures exists r :: r in t && !r.deleted && r.status == a
    {
      assert a in statuses;
      var i :| 0 <= i < |m| && statuses[i] == a;
      assert m[i] in m;
    }
  }

  /** Appending a row adds its id. */
  lemma IdsOfSnoc(p: seq<Row>, x: Row)
    ensures IdsOf(p + [x]) == IdsOf(p) + {x.id}
  {
    var s := p + [x];
    forall v
      ensures v in IdsOf(s) <==> v in IdsOf(p) + {x.id}
    {
      if v in IdsOf(s) {
        var y :| y in s && y.id == v;
        assert y in p || y == x;
      }
      if v in IdsOf(p) {
        var y :| y in p && y.id == v;
        assert y in s;
      }
      if v == x.id {
        assert x in s;
      }
    }
  }

  /** The ids of a table without repeats number as many as its rows. */
  lemma {:induction false} DistinctIdCount(s: seq<Row>)
    requires NoDuplicates(Project(s, IdOf))
    ensures |IdsOf(s)| == |s|
    decreases |s|
  {
    if |s| > 0 {
      var p := s[..|s| - 1];
      var x := s[|s| - 1];
      assert Project(p, IdOf) == Project(s, IdOf)[..|s| - 1];
      DistinctIdCount(p);
      assert s == p + [x];
      forall y | y in p
        ensures y.id != x.id
      {
        var i :| 0 <= i < |p| && p[i] == y;
        assert Project(s, IdOf)[i] == y.id;
        assert Project(s, IdOf)[|s| - 1] == x.id;
      }
      assert x.id !in IdsOf(p);
      IdsOfSnoc(p, x);
    }
  }

  /** When all ids of `s` differ, keeping the last row per id keeps every row. */
  lemma LatestOfDistinct(s: seq<Row>)
    requires NoDuplicates(Project(s, IdOf))
    ensures LatestById(s) == s
  {
    var ids := Project(s, IdOf);
    DedupOfDistinct(ids);
    var r := LatestById(s);
    assert |r| == |s|;
    forall k | 0 <= k < |s|
      ensures r[k] == s[k]
    {
      var i := LastIndexOf(ids, ids[k]);
      assert r[k] == s[i];
      assert ids[i] == ids[k];
    }
  }

  /** Under the invariant, a current row of the table is the only row sharing its merge keys. */
  lemma OnlyMatch(l: Row, t: seq<Row>)
    requires OneCurrentPerId(t) && l in t && !l.deleted
    ensures Filter(t, SameKey(l)) == [l]
  {
    var i :| 0 <= i < |t| && t[i] == l;
    forall j | 0 <= j < |t| && j != i
      ensures !SameKey(l)(t[j])
    {
      if j < i {
        assert Current(t[j]) && Current(t[i]) ==> t[j].id != t[i].id;
      } else {
        assert Current(t[i]) && Current(t[j]) ==> t[i].id != t[j].id;
      }
    }
    FilterUnique(t, SameKey(l), i);
  }

  /** Current rows of a table with one current row per id merge back to themselves. */
  lemma {:induction false} MergeBackCurrent(latest: seq<Row>, t: seq<Row>)
    requires OneCurrentPerId(t)
    requires forall l :: l in latest ==> l in t && !l.deleted
    ensures MergeBack(latest, t) == latest
    decreases |latest|
  {
    if |latest| > 0 {
      var l := latest[0];
      var rest := latest[1..];
      assert l in t && !l.deleted by {
        assert l in latest;
      }
      OnlyMatch(l, t);
      assert MergeBack(rest, t) == rest by {
        assert forall x :: x in rest ==> x in latest;
        MergeBackCurrent(rest, t);
      }
      assert latest == [l] + rest;
    }
  }

  /**
   Under the one-current-row-per-id invariant the merge yields each slice row
   exactly once: the counts are the statuses of the slice, and they add up to the
   number of distinct ids in it.
   */
  lemma {:induction false} PartToWholeCurrent(t: seq<Row>, minDate: Instant, maxDate: Instant)
    requires OneCurrentPerId(t)
    ensures PartToWhole(t, minDate, maxDate) == multiset(Project(Slice(t, minDate, maxDate), StatusOf))
    ensures |PartToWhole(t, minDate, maxDate)| == |IdsOf(Slice(t, minDate, maxDate))|
  {
    var s := Slice(t, minDate, maxDate);
    OneCurrentSub(t, s);
    forall i, j | 0 <= i < j < |s|
      ensures Project(s, IdOf)[i] != Project(s, IdOf)[j]
    {
      assert s[i] in s && s[j] in s;
    }
    LatestOfDistinct(s);
    MergeBackCurrent(s, t);
    DistinctIdCount(s);
  }

  // ---------------------------------------------------------------- weeks

  /** Day 0 (1970-01-01) was a Thursday, so day 4 was a Monday. */
  predicate IsMonday(d: Day)
  {
    d % 7 == 4
  }

  /**
   The label `pd.Grouper(freq="W-MON")` gives a date: weeks end on Monday and are
   labelled by their end, so the label is the first Monday on or after the date.
   */
  function WeekLabel(d: Day): (w: Day)
    ensures 0 <= w - d <= 6
    ensures IsMonday(w)
    ensures forall m :: d <= m < w ==> !IsMonday(m)
  {
    d + (7 - (d + 3) % 7) % 7
  }

  /** The window test on a week label: `>= min_date` and `< max_date`. */
  predicate InWindow(w: Day, minDate: Instant, maxDate: Instant)
  {
    DayStart(w) >= minDate && DayStart(w) < maxDate
  }

  /** An empty window, or one ending before it starts, holds no week label. */
  lemma EmptyWindow(w: Day, minDate: Instant, maxDate: Instant)
    requires maxDate <= minDate
    ensures !InWindow(w, minDate, maxDate)
  {
  }

  // ---------------------------------------------------------------- time series

  /** The columns (`Sys_id`, `Einlieferungsdatum`, `Tierart`) the time series deduplicates. */
  datatype Admission = Admission(id: Digest, admitted: Day, species: string)

  function AdmissionOf(r: Row): Admission
  {
    Admission(r.id, r.admitted, r.species)
  }

  /** A group of the time series: (`Tierart`, `Einlieferungswoche`). */
  datatype SpeciesWeek = SpeciesWeek(species: string, week: Day)

  function SpeciesWeekOf(a: Admission): SpeciesWeek
  {
    SpeciesWeek(a.species, WeekLabel(a.admitted))
  }

  function WeekInWindow(minDate: Instant, maxDate: Instant): SpeciesWeek -> bool
  {
    (k: SpeciesWeek) => InWindow(k.week, minDate, maxDate)
  }

  /**
   `create_time_series`: the distinct admissions counted per (species, week), the
   groups then kept when their week label lies in the window. A group's count is
   the multiplicity of its key.
   */
  function TimeSeries(t: seq<Row>, minDate: Instant, maxDate: Instant): (counts: multiset<SpeciesWeek>)
    ensures forall k :: k in counts ==> InWindow(k.week, minDate, maxDate)
  {
    var groups := Project(Dedup(Project(t, AdmissionOf)), SpeciesWeekOf);
    var kept := Filter(groups, WeekInWindow(minDate, maxDate));
    assert forall k :: k in multiset(kept) ==> InWindow(k.week, minDate, maxDate) by {
      forall k | k in multiset(kept)
        ensures InWindow(k.week, minDate, maxDate)
      {
        assert k in kept;
      }
    }
    multiset(kept)
  }

  /**
   Each count is the number of distinct (`Sys_id`, date, species) triples of the
   table whose species and week label are the group's, or 0 outside the window.
   */
  lemma {:induction false} TimeSeriesCounts(t: seq<Row>, minDate: Instant, maxDate: Instant, k: SpeciesWeek)
    ensures TimeSeries(t, minDate, maxDate)[k] ==
            if InWindow(k.week, minDate, maxDate)
            then |set a | a in Project(t, AdmissionOf) && SpeciesWeekOf(a) == k|
            else 0
  {
    var groups := Project(Dedup(Project(t, AdmissionOf)), SpeciesWeekOf);
    assert TimeSeries(t, minDate, maxDate) == multiset(Filter(groups, WeekInWindow(minDate, maxDate)));
    FilterCount(groups, WeekInWindow(minDate, maxDate), k);
    assert WeekInWindow(minDate, maxDate)(k) == InWindow(k.week, minDate, maxDate);
    var adm := Project(t, AdmissionOf);
    CountDedup(adm, SpeciesWeekOf, k, set a | a in adm && SpeciesWeekOf(a) == k);
  }

  /** A window holding no week label gives an empty result, not an error. */
  lemma TimeSeriesEmptyWindow(t: seq<Row>, minDate: Instant, maxDate: Instant)
    requires maxDate <= minDate
    ensures TimeSeries(t, minDate, maxDate) == multiset{}
  {
    var counts := TimeSeries(t, minDate, maxDate);
    forall k
      ensures counts[k] == 0
    {
      EmptyWindow(k.week, minDate, maxDate);
      TimeSeriesCounts(t, minDate, maxDate, k);
    }
  }

  // ---------------------------------------------------------------- bubbles

  /** The columns (`Sys_id`, `Einlieferungsdatum`, `Long`, `Lat`) the bubbles deduplicate. */
  datatype Visit = Visit(id: Digest, admitted: Day, long: Option<Coord>, lat: Option<Coord>)

  function VisitOf(r: Row): Visit
  {
    Visit(r.id, r.admitted, r.long, r.lat)
  }

  /** `groupby` leaves out rows whose Long or Lat is null. */
  predicate HasCoords(v: Visit)
  {
    v.long.Some? && v.lat.Some?
  }

  function HasCoordsOf(): Visit -> bool
  {
    (v: Visit) => HasCoords(v)
  }

  /** A group of the bubbles: (`Long`, `Lat`, week label). */
  datatype Spot = Spot(long: Coord, lat: Coord, week: Day)

  /** The group key of a visit with coordinates (the defaults are never used). */
  function SpotOf(v: Visit): Spot
  {
    Spot(v.long.GetOr(0), v.lat.GetOr(0), WeekLabel(v.admitted))
  }

  /** The per-group counts, as multiplicities. */
  function SpotCounts(t: seq<Row>): multiset<Spot>
  {
    multiset(Project(Filter(Dedup(Project(t, VisitOf)), HasCoordsOf()), SpotOf))
  }

  /** The columns (`Long`, `Lat`, `Fundort`) merged onto the groups. */
  datatype PlaceAt = PlaceAt(long: Option<Coord>, lat: Option<Coord>, place: Option<string>)

  function PlaceAtOf(r: Row): PlaceAt
  {
    PlaceAt(r.long, r.lat, r.place)
  }

  /** One output row: a group, its count and one of the places recorded at its coordinates. */
  datatype Bubble = Bubble(long: Coord, lat: Coord, week: Day, count: nat, place: Option<string>)

  /**
   `create_bubbles`: the groups with their counts, left-merged on (Long, Lat) with
   the distinct (Long, Lat, Fundort) rows, so a group appears once per place
   recorded at its coordinates; then only week labels in the window are kept.
   */
  function Bubbles(t: seq<Row>, minDate: Instant, maxDate: Instant): (bs: set<Bubble>)
    ensures forall b :: b in bs ==> InWindow(b.week, minDate, maxDate) && b.count > 0
  {
    MergeOnCoords(SpotCounts(t), Dedup(Project(t, PlaceAtOf)), minDate, maxDate)
  }

  /** The merge of group counts with the recorded places, restricted to the window. */
  function MergeOnCoords(counts: multiset<Spot>, places: seq<PlaceAt>, minDate: Instant, maxDate: Instant): (bs: set<Bubble>)
    ensures forall b :: b in bs ==> InWindow(b.week, minDate, maxDate) && b.count > 0
  {
    set s, p | s in counts && p in places && p.long == Some(s.long) && p.lat == Some(s.lat)
                && InWindow(s.week, minDate, maxDate)
      :: Bubble(s.long, s.lat, s.week, counts[s], p.place)
  }

  /** The visits that fall into a group. */
  predicate AtSpot(v: Visit, s: Spot)
  {
    v.long == Some(s.long) && v.lat == Some(s.lat) && WeekLabel(v.admitted) == s.week
  }

  /** A group's count is the number of distinct visits at its coordinates in its week. */
  lemma SpotCount(t: seq<Row>, s: Spot)
    ensures SpotCounts(t)[s] == |set v | v in Project(t, VisitOf) && AtSpot(v, s)|
  {
    var vs := Project(t, VisitOf);
    var group := set v | v in vs && AtSpot(v, s);
    forall v
      ensures v in group <==> v in vs && HasCoordsOf()(v) && SpotOf(v) == s
    {
      if HasCoords(v) {
        assert SpotOf(v) == Spot(v.long.value, v.lat.value, WeekLabel(v.admitted));
      }
    }
    CountFilterDedup(vs, HasCoordsOf(), SpotOf, s, group);
  }

  /**
   Every bubble counts the distinct visits at its coordinates in its week, lies in
   the window, and carries a place that some row records at those coordinates.
   */
  lemma BubbleMeaning(t: seq<Row>, minDate: Instant, maxDate: Instant, b: Bubble)
    requires b in Bubbles(t, minDate, maxDate)
    ensures b.count == |set v | v in Project(t, VisitOf) && AtSpot(v, Spot(b.long, b.lat, b.week))|
    ensures exists r :: r in t && r.long == Some(b.long) && r.lat == Some(b.lat) && r.place == b.place
  {
    var s := Spot(b.long, b.lat, b.week);
    SpotCount(t, s);
    var places := Dedup(Project(t, PlaceAtOf));
    var p :| p in places && p.long == Some(b.long) && p.lat == Some(b.lat) && p.place == b.place;
    var i :| 0 <= i < |t| && Project(t, PlaceAtOf)[i] == p;
    assert t[i] in t;
  }

  /** Every row with coordinates whose week lies in the window shows up in a bubble with its place. */
  lemma {:induction false} BubbleCovers(t: seq<Row>, minDate: Instant, maxDate: Instant, r: Row)
    requires r in t && r.long.Some? && r.lat.Some? && InWindow(WeekLabel(r.admitted), minDate, maxDate)
    ensures exists b :: b in Bubbles(t, minDate, maxDate) && b.long == r.long.value && b.lat == r.lat.value
                        && b.week == WeekLabel(r.admitted) && b.place == r.place
  {
    var s := Spot(r.long.value, r.lat.value, WeekLabel(r.admitted));
    var i :| 0 <= i < |t| && t[i] == r;
    assert Project(t, VisitOf)[i] == VisitOf(r);
    SpotCount(t, s);
    assert VisitOf(r) in (set v | v in Project(t, VisitOf) && AtSpot(v, s));
    assert s in SpotCounts(t);
    assert Project(t, PlaceAtOf)[i] == PlaceAtOf(r);
    assert PlaceAtOf(r) in Dedup(Project(t, PlaceAtOf));
    assert Bubble(s.long, s.lat, s.week, SpotCounts(t)[s], r.place) in Bubbles(t, minDate, maxDate);
  }

  // ---------------------------------------------------------------- versions

  /**
   Neither the time series nor the bubbles looks at `Sys_geloescht`: flagging rows
   deleted changes neither.
   */
  lemma {:induction false} ViewsIgnoreSoftDelete(t: seq<Row>, id: Digest, now: Instant, minDate: Instant, maxDate: Instant)
    ensures TimeSeries(SoftDelete(t, id, now), minDate, maxDate) == TimeSeries(t, minDate, maxDate)
    ensures Bubbles(SoftDelete(t, id, now), minDate, maxDate) == Bubbles(t, minDate, maxDate)
  {
    var u := SoftDelete(t, id, now);
    assert Project(u, AdmissionOf) == Project(t, AdmissionOf);
    assert Project(u, VisitOf) == Project(t, VisitOf);
    assert Project(u, PlaceAtOf) == Project(t, PlaceAtOf);
  }

  /** A new version of a row whose id, date and species already occur adds nothing to the time series. */
  lemma {:induction false} TimeSeriesIgnoresNewVersion(t: seq<Row>, r: Row, minDate: Instant, maxDate: Instant)
    requires exists x :: x in t && AdmissionOf(x) == AdmissionOf(r)
    ensures TimeSeries(t + [r], minDate, maxDate) == TimeSeries(t, minDate, maxDate)
  {
    var x :| x in t && AdmissionOf(x) == AdmissionOf(r);
    var i :| 0 <= i < |t| && t[i] == x;
    var before := Project(t, AdmissionOf);
    assert Project(t + [r], AdmissionOf) == before + [AdmissionOf(r)];
    assert before[i] == AdmissionOf(r);
    DedupAbsorbs(before, [AdmissionOf(r)]);
  }

  /**
   A new version of a row whose id, date, coordinates and place already occur
   together adds nothing to the bubbles.
   */
  lemma {:induction false} BubblesIgnoreNewVersion(t: seq<Row>, r: Row, minDate: Instant, maxDate: Instant)
    requires exists x :: x in t && VisitOf(x) == VisitOf(r) && PlaceAtOf(x) == PlaceAtOf(r)
    ensures Bubbles(t + [r], minDate, maxDate) == Bubbles(t, minDate, maxDate)
  {
    var x :| x in t && VisitOf(x) == VisitOf(r) && PlaceAtOf(x) == PlaceAtOf(r);
    var i :| 0 <= i < |t| && t[i] == x;
    assert SpotCounts(t + [r]) == SpotCounts(t) by {
      var visits := Project(t, VisitOf);
      assert Project(t + [r], VisitOf) == visits + [VisitOf(r)];
      assert visits[i] == VisitOf(r);
      DedupAbsorbs(visits, [VisitOf(r)]);
    }
    assert Dedup(Project(t + [r], PlaceAtOf)) == Dedup(Project(t, PlaceAtOf)) by {
      var places := Project(t, PlaceAtOf);
      assert Project(t + [r], PlaceAtOf) == places + [PlaceAtOf(r)];
      assert places[i] == PlaceAtOf(r);
      DedupAbsorbs(places, [PlaceAtOf(r)]);
    }
  }
}
