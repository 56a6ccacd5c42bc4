/**
 The rows the historization engine works on, from the scraped PDF table to the
 historized `rob.csv`, and the two foreign pieces it relies on: the SHA-256
 digest of a row and difflib's closest-match lookup, both taken as parameters.
 */
module Records {
  import opened Wrappers
  import Seqs

  /** An admission date (`Einlieferungsdatum`): days since 1970-01-01, which was a Thursday. */
  type Day = int

  /** A timestamp (`Erstellt_am`, `Sys_aktualisiert_am`, window bounds): seconds since 1970-01-01 00:00. */
  type Instant = int

  /** A latitude or longitude; only copied and compared, never computed with. */
  type Coord = int

  /** A hex digest as stored in `Sys_id` and `Sys_hash`. */
  type Digest = string

  /** The placeholder that replaces a missing finding place. */
  const UNKNOWN: string := "Unknown"

  /** One row of the scraped table: Fundort, Einlieferungsdatum, Tierart, Aktuell. */
  datatype RawRow = RawRow(place: Option<string>, admitted: Day, species: string, status: string)

  /** One row of `catalogued_finding_places.csv`: Name, Lat, Long. */
  datatype Entry = Entry(name: string, lat: Coord, long: Coord)

  /** A scraped row after imputation and matching: its Fundort, Mapped Fundort, Lat and Long. */
  datatype Resolved = Resolved(place: string, mapped: string, lat: Coord, long: Coord,
                               admitted: Day, species: string, status: string)

  /** A reviewed row once the raw Fundort is dropped and Mapped Fundort becomes Fundort. */
  datatype Located = Located(place: string, lat: Coord, long: Coord,
                             admitted: Day, species: string, status: string)

  /**
   What gets hashed: the identity columns with the group ordinal (`Sys_id`), or the
   identity with the content columns (`Sys_hash`).
   */
  datatype HashInput =
    | IdFields(place: string, admitted: Day, species: string, ordinal: nat)
    | VersionFields(id: Digest, place: string, admitted: Day, species: string, status: string)

  /** SHA-256 over a row's serialization. */
  type Hasher = HashInput -> Digest

  /** The collision-freedom the source relies on. */
  ghost predicate Injective(hash: Hasher)
  {
    forall a, b :: hash(a) == hash(b) ==> a == b
  }

  /** `difflib.get_close_matches(query, names, n=1, cutoff=0.0)[0]`. */
  type Matcher = (string, seq<string>) -> string

  /** With cutoff 0.0 every name qualifies, so the best match is one of the names. */
  ghost predicate PicksCandidate(matcher: Matcher)
  {
    forall query, names :: |names| > 0 ==> matcher(query, names) in names
  }

  /** A preprocessed row ready for historization, before the technical columns are set. */
  datatype Identified = Identified(id: Digest, place: string, lat: Coord, long: Coord,
                                   admitted: Day, species: string, status: string,
                                   created: Instant, hash: Digest)

  /** No two rows of a batch share a `Sys_id`. */
  predicate DistinctIds(rows: seq<Identified>)
  {
    forall i, j :: 0 <= i < j < |rows| ==> rows[i].id != rows[j].id
  }

  /** Selecting or reordering rows of a batch keeps its `Sys_id`s distinct. */
  lemma DistinctIdsSub(a: seq<Identified>, b: seq<Identified>)
    requires DistinctIds(a) && multiset(b) <= multiset(a)
    ensures DistinctIds(b)
  {
    forall i, j | 0 <= i < j < |b|
      ensures b[i].id != b[j].id
    {
      if b[i] == b[j] {
        Seqs.CountTwo(b, i, j);
        var p, q := Seqs.TwoPositions(a, b[i]);
      } else {
        assert b[i] in multiset(a) && b[j] in multiset(a);
        var p :| 0 <= p < |a| && a[p] == b[i];
        var q :| 0 <= q < |a| && a[q] == b[j];
        assert p != q;
      }
    }
  }

  /** One row of the historized table `rob.csv`. */
  datatype Row = Row(id: Digest, place: Option<string>, lat: Option<Coord>, long: Option<Coord>,
                     admitted: Day, species: string, status: string, created: Instant,
                     deleted: bool, updated: Instant, hash: Digest)

  predicate Current(r: Row)
  {
    !r.deleted
  }

  /** The invariant of the historized table: no two current rows share a `Sys_id`. */
  predicate OneCurrentPerId(t: seq<Row>)
  {
    forall i, j :: 0 <= i < j < |t| && Current(t[i]) && Current(t[j]) ==> t[i].id != t[j].id
  }

  /** Reordering or filtering a table cannot create a second current row for an id. */
  lemma OneCurrentSub(a: seq<Row>, b: seq<Row>)
    requires OneCurrentPerId(a) && multiset(b) <= multiset(a)
    ensures OneCurrentPerId(b)
  {
    forall i, j | 0 <= i < j < |b| && Current(b[i]) && Current(b[j])
      ensures b[i].id != b[j].id
    {
      if b[i] == b[j] {
        Seqs.CountTwo(b, i, j);
        var p, q := Seqs.TwoPositions(a, b[i]);
      } else {
        assert b[i] in multiset(a) && b[j] in multiset(a);
        var p :| 0 <= p < |a| && a[p] == b[i];
        var q :| 0 <= q < |a| && a[q] == b[j];
        assert p != q;
      }
    }
  }

  /** The ways the source raises. */
  datatype Error =
    | NoCatalogueAvailable      // `[0]` on the empty match list of an empty catalogue
    | DuplicateIdentity         // the `Sys_id` uniqueness assertion fails
    | NoDigitsInDate            // `re.findall(...)[0]` finds no digit run in `/ModDate`
    | FileNotFound(url: string) // the report URL does not answer with status 200
    | ClientFailure(code: string) // an S3 client error, by error code
    | UploadFailed              // the upload of the report or of its changelog marker fails
    | NoListing                 // `list_objects_v2` returns no "Contents"
}
