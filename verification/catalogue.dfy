/**
 The catalogue of finding places (`catalogued_finding_places.csv`): looking a
 place up by name, merging confirmed places into it (historizer) and rebuilding
 it from the engineered table (engineer). Both writers sort it by Name.
 */
module Catalogue {
  import opened Wrappers
  import opened Records
  import opened Seqs
  import opened Sorting
  import Text

  function NameOf(e: Entry): string
  {
    e.name
  }

  /** The `Name` column. */
  function Names(cat: seq<Entry>): seq<string>
  {
    Project(cat, NameOf)
  }

  /**
   `dict(zip(names, index))[name]`: the dictionary keeps the last index written
   for a name, so a name listed twice resolves to its last row.
   */
  function LastIndexOf(names: seq<string>, name: string): (k: nat)
    requires name in names
    ensures k < |names| && names[k] == name
    ensures forall j :: k < j < |names| ==> names[j] != name
  {
    if names[|names| - 1] == name then |names| - 1
    else LastIndexOf(names[..|names| - 1], name)
  }

  /**
   The catalogue row whose Lat and Long a matched name receives: the last row
   of that name.
   */
  function Locate(cat: seq<Entry>, name: string): (e: Entry)
    requires name in Names(cat)
    ensures e.name == name && e in cat
    ensures exists k :: 0 <= k < |cat| && cat[k] == e && forall j :: k < j < |cat| ==> cat[j].name != name
  {
    var k := LastIndexOf(Names(cat), name);
    assert forall j :: k < j < |cat| ==> Names(cat)[j] == cat[j].name;
    cat[k]
  }

  /** `sort_values(by="Name")`. */
  predicate NameBefore(a: Entry, b: Entry)
  {
    Text.LessEq(a.name, b.name)
  }

  lemma NameOrder()
    ensures TotalPreorder(NameBefore)
  {
    forall a: Entry, b: Entry
      ensures NameBefore(a, b) || NameBefore(b, a)
    {
      Text.LessEqTotal(a.name, b.name);
    }
    forall a: Entry, b: Entry, c: Entry | NameBefore(a, b) && NameBefore(b, c)
      ensures NameBefore(a, c)
    {
      Text.LessEqTransitive(a.name, b.name, c.name);
    }
  }

  function SortByName(es: seq<Entry>): (r: seq<Entry>)
    ensures multiset(r) == multiset(es)
    ensures SortedBy(r, NameBefore)
  {
    NameOrder();
    SortBySorted(es, NameBefore);
    SortBy(es, NameBefore)
  }

  /** The (Fundort, Lat, Long) triple of a located row, renamed to (Name, Lat, Long). */
  function TripleOf(l: Located): Entry
  {
    Entry(l.place, l.lat, l.long)
  }

  /**
   The historizer's catalogue update: the prior catalogue concatenated with the
   distinct triples of the reviewed batch, duplicates dropped, sorted by Name.
   */
  function MergeCatalogue(prior: seq<Entry>, batch: seq<Located>): (r: seq<Entry>)
    ensures forall e :: e in prior ==> e in r
    ensures forall l :: l in batch ==> TripleOf(l) in r
    ensures forall e :: e in r ==> e in prior || exists l :: l in batch && TripleOf(l) == e
    ensures NoDuplicates(r)
    ensures SortedBy(r, NameBefore)
  {
    var incoming := Dedup(Project(batch, TripleOf));
    var merged := Dedup(prior + incoming);
    var r := SortByName(merged);
    NoDuplicatesSub(merged, r);
    assert forall l :: l in batch ==> TripleOf(l) in incoming by {
      forall l | l in batch
        ensures TripleOf(l) in incoming
      {
        var i :| 0 <= i < |batch| && batch[i] == l;
        assert Project(batch, TripleOf)[i] == TripleOf(l);
      }
    }
    assert forall e :: e in r <==> e in merged by {
      forall e
        ensures e in r <==> e in merged
      {
        assert e in r <==> e in multiset(r);
      }
    }
    r
  }

  /** A row carries a complete (Fundort, Lat, Long) triple equal to `e`. */
  predicate HasTriple(r: Row, e: Entry)
  {
    r.place == Some(e.name) && r.lat == Some(e.lat) && r.long == Some(e.long)
  }

  /** `df[["Fundort", "Lat", "Long"]].dropna()`: the triples of the rows where none is missing. */
  function CompleteTriples(rows: seq<Row>): (es: seq<Entry>)
    ensures forall e :: e in es <==> exists i :: 0 <= i < |rows| && HasTriple(rows[i], e)
  {
    if |rows| == 0 then []
    else
      var r := rows[0];
      var head := if r.place.Some? && r.lat.Some? && r.long.Some?
                  then [Entry(r.place.value, r.lat.value, r.long.value)] else [];
      var tail := CompleteTriples(rows[1..]);
      assert forall e :: e in head + tail <==> exists i :: 0 <= i < |rows| && HasTriple(rows[i], e) by {
        forall e
          ensures e in head + tail <==> exists i :: 0 <= i < |rows| && HasTriple(rows[i], e)
        {
          if exists i :: 1 <= i < |rows| && HasTriple(rows[i], e) {
            var i :| 1 <= i < |rows| && HasTriple(rows[i], e);
            assert rows[1..][i - 1] == rows[i];
          }
          if e in tail {
            var i :| 0 <= i < |rows[1..]| && HasTriple(rows[1..][i], e);
            assert rows[i + 1] == rows[1..][i];
          }
        }
      }
      head + tail
  }

  /**
   The engineer's catalogue: the distinct complete triples of the saved table,
   sorted by Name. The previous catalogue is not an input: it is replaced.
   */
  function RebuildCatalogue(rows: seq<Row>): (r: seq<Entry>)
    ensures forall e :: e in r <==> exists i :: 0 <= i < |rows| && HasTriple(rows[i], e)
    ensures NoDuplicates(r)
    ensures SortedBy(r, NameBefore)
  {
    var distinct := Dedup(CompleteTriples(rows));
    var r := SortByName(distinct);
    NoDuplicatesSub(distinct, r);
    assert forall e :: e in r <==> e in distinct by {
      forall e
        ensures e in r <==> e in distinct
      {
        assert e in r <==> e in multiset(r);
      }
    }
    r
  }
}
