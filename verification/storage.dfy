/**
 Object-store naming around the raw reports: the scheduled function that finds
 the current report and stores it once under a name derived from its
 modification date, with an empty changelog marker beside it
 (`packages/deployment_aws_save_rob/lambda_function.py`), and the reader that
 discovers unprocessed reports through those markers (`RobHistoricizerAWS`).
 The bucket is a map from keys to contents.
 */
module Storage {
  import opened Wrappers
  import opened Records
  import opened Seqs
  import opened Text

  /** The report's fixed address. */
  const ROB_URL: string := "https://www.seehundstation-friedrichskoog.de/wp-content/heuler/1.6HomepageHeuler.pdf"

  const BUCKET: string := "rob-oliver"
  const RAW_PREFIX: string := "data/raw"
  const CHANGELOG_PREFIX: string := "data/changelog"
  const INTERIM_PREFIX: string := "data/interim"
  const DEPLOYMENT_PREFIX: string := "data/deployment"

  /** The S3 error code of a lookup of an absent key. */
  const NO_SUCH_KEY: string := "NoSuchKey"

  type Blob = seq<bv8>

  /** The bucket: object keys to contents. */
  type Store = map<string, Blob>

  // ---------------------------------------------------------------- find_rob

  /** `find_rob`, given the status code the GET of the report answered with. */
  function FindRob(status: int): (r: Result<string, Error>)
    ensures r.Success? <==> status == 200
    ensures r.Success? ==> r.value == ROB_URL
    ensures r.Failure? ==> r.error == FileNotFound(ROB_URL)
  {
    if status != 200 then Failure(FileNotFound(ROB_URL)) else Success(ROB_URL)
  }

  // ---------------------------------------------------------------- file name

  /** The longest prefix of `s` made of digits. */
  function LeadingDigits(s: string): (r: string)
    ensures |r| <= |s| && r == s[..|r|] && AllDigits(r)
    ensures |r| == |s| || !IsDigit(s[|r|])
  {
    if |s| == 0 || !IsDigit(s[0]) then ""
    else
      var rest := LeadingDigits(s[1..]);
      assert s[..|rest| + 1] == [s[0]] + rest;
      [s[0]] + rest
  }

  /** The number of characters before the first digit of `s` (`|s|` when there is none). */
  function SkipNonDigits(s: string): (k: nat)
    ensures k <= |s|
    ensures forall j :: 0 <= j < k ==> !IsDigit(s[j])
    ensures k == |s| || IsDigit(s[k])
  {
    if |s| == 0 || IsDigit(s[0]) then 0
    else
      var k := SkipNonDigits(s[1..]);
      assert forall j :: 1 <= j < k + 1 ==> s[j] == s[1..][j - 1];
      k + 1
  }

  /**
   `re.findall(r"\d+", s)[0]` when there is a match: the maximal run of digits
   that starts at the first digit of `s`.
   */
  function FirstDigitRun(s: string): (r: Option<string>)
    ensures r.None? <==> forall i :: 0 <= i < |s| ==> !IsDigit(s[i])
    ensures r.Some? ==> r.value == LeadingDigits(s[SkipNonDigits(s)..]) && |r.value| > 0
  {
    var k := SkipNonDigits(s);
    if k == |s| then None
    else
      assert IsDigit(s[k..][0]);
      Some(LeadingDigits(s[k..]))
  }

  /** The date part of the file name: the first 8 characters of the first digit run of `/ModDate`. */
  function ModificationDate(modDate: string): (r: Result<string, Error>)
    ensures r.Failure? <==> forall i :: 0 <= i < |modDate| ==> !IsDigit(modDate[i])
    ensures r.Failure? ==> r.error == NoDigitsInDate
    ensures r.Success? ==> 0 < |r.value| <= 8 && AllDigits(r.value)
    ensures r.Success? ==> var run := FirstDigitRun(modDate).value;
                           && |r.value| == (if |run| < 8 then |run| else 8)
                           && r.value == run[..|r.value|]
  {
    match FirstDigitRun(modDate)
    case None => Failure(NoDigitsInDate)
    case Some(run) => Success(if |run| <= 8 then run else run[..8])
  }

  /**
   A date string as section 7.9.4 of ISO 32000-1 writes it, "D:" followed by at
   least the year, month and day digits, yields exactly those eight digits.
   */
  lemma PdfDateGivesDay(digits: string, rest: string)
    requires |digits| >= 8 && AllDigits(digits)
    requires |rest| == 0 || !IsDigit(rest[0])
    ensures ModificationDate("D:" + digits + rest) == Success(digits[..8])
  {
    var s := "D:" + digits + rest;
    assert IsDigit(s[2]) && !IsDigit(s[0]) && !IsDigit(s[1]);
    assert SkipNonDigits(s) == 2;
    assert s[2..] == digits + rest;
    LeadingDigitsOf(digits, rest);
    assert FirstDigitRun(s) == Some(digits);
    assert |digits| == 8 ==> digits[..8] == digits;
  }

  lemma {:induction false} LeadingDigitsOf(digits: string, rest: string)
    requires AllDigits(digits)
    requires |rest| == 0 || !IsDigit(rest[0])
    ensures LeadingDigits(digits + rest) == digits
    decreases |digits|
  {
    if |digits| == 0 {
      assert digits + rest == rest;
    } else {
      assert (digits + rest)[1..] == digits[1..] + rest;
      LeadingDigitsOf(digits[1..], rest);
      assert digits == [digits[0]] + digits[1..];
    }
  }

  /**
   `f"{modification_date}_{os.path.basename(url)}"`: the date, an underscore and the
   address's last path segment, so the name holds a '/' only when the date does.
   */
  function FileName(date: string, url: string): (f: string)
    ensures |f| == |date| + 1 + |Basename(url)|
    ensures StartsWith(f, date + "_") && EndsWith(f, Basename(url))
    ensures '/' in f <==> '/' in date
  {
    var f := date + "_" + Basename(url);
    assert f[..|date| + 1] == date + "_";
    assert f[|date| + 1..] == Basename(url);
    f
  }

  /** The key the report is stored under: a plain file name is its last segment under data/raw. */
  function DataKey(fileName: string): (k: string)
    ensures StartsWith(k, "data/raw/") && EndsWith(k, fileName) && |k| == |"data/raw/"| + |fileName|
    ensures '/' !in fileName ==> Basename(k) == fileName
  {
    var k := RAW_PREFIX + "/" + fileName;
    if '/' in fileName then k
    else
      BasenameOfChild(RAW_PREFIX, fileName);
      k
  }

  /**
   The changelog marker's key: the file name with its last three characters
   replaced by "log", under data/changelog.
   */
  function ChangelogKey(fileName: string): (k: string)
    ensures StartsWith(k, "data/changelog/") && EndsWith(k, "log")
    ensures '/' !in fileName ==> Basename(k) == DropLast(fileName, 3) + "log"
  {
    var name := DropLast(fileName, 3) + "log";
    var k := CHANGELOG_PREFIX + "/" + name;
    if '/' in fileName then k
    else
      DropLastPlain(fileName, 3);
      BasenameOfChild(CHANGELOG_PREFIX, name);
      k
  }

  /** Dropping characters from a plain name leaves a plain name. */
  lemma DropLastPlain(s: string, n: nat)
    requires n > 0 && '/' !in s
    ensures '/' !in DropLast(s, n)
  {
    var d := DropLast(s, n);
    assert forall i :: 0 <= i < |d| ==> d[i] == s[i];
  }

  /** A report's key and its marker's key differ, so writing one never overwrites the other. */
  lemma KeysDiffer(fileName: string)
    ensures DataKey(fileName) != ChangelogKey(fileName)
  {
    var d, c := DataKey(fileName), ChangelogKey(fileName);
    assert d[..9][5] == 'r' && c[..15][5] == 'c';
    assert d[5] != c[5];
  }

  // ---------------------------------------------------------------- save_rob

  /** What `get_object` answers: the object, or a client error with its code. */
  datatype Lookup = Found | ClientError(code: string)

  /**
   `get_object` on the bucket. `fault` is an error the service raises instead of
   answering (access denied, throttling, ...); an absent key answers `NoSuchKey`.
   */
  function GetObject(store: Store, key: string, fault: Option<string>): (l: Lookup)
    ensures fault.None? ==> (l == Found <==> key in store)
    ensures fault.None? && key !in store ==> l == ClientError(NO_SUCH_KEY)
  {
    if fault.Some? then ClientError(fault.value)
    else if key in store then Found
    else ClientError(NO_SUCH_KEY)
  }

  /** Which write of the upload fails, if any. */
  datatype WriteFault = NoWriteFault | ReportWriteFails | MarkerWriteFails

  datatype SaveStatus = Uploaded | AlreadyExists | Raised(error: Error)

  datatype SaveResult = SaveResult(store: Store, status: SaveStatus)

  /** The report's file name, from its `/ModDate` and its address. */
  function ReportFileName(modDate: string, url: string): (r: Result<string, Error>)
    ensures r.Failure? <==> ModificationDate(modDate).Failure?
    ensures r.Failure? ==> r.error == NoDigitsInDate
  {
    match ModificationDate(modDate)
    case Failure(e) => Failure(e)
    case Success(date) => Success(FileName(date, url))
  }

  /**
   `save_rob` once the file name is known: the report is written, followed by its
   empty changelog marker, only when the lookup of its key answers `NoSuchKey`;
   any other lookup error is re-raised before any write, and an existing report
   is left alone.
   */
  function SaveAs(store: Store, fn: string, pdf: Blob,
                  lookupFault: Option<string>, writeFault: WriteFault): (r: SaveResult)
    ensures r.status.Uploaded? <==>
              GetObject(store, DataKey(fn), lookupFault) == ClientError(NO_SUCH_KEY) && writeFault == NoWriteFault
    ensures r.status.Raised? ==> r.status.error.ClientFailure? || r.status.error == UploadFailed
    ensures r.status == AlreadyExists <==> GetObject(store, DataKey(fn), lookupFault).Found?
    ensures r.status == AlreadyExists ==> r.store == store
    ensures r.status.Raised? && r.status.error.ClientFailure? ==> r.store == store && r.status.error.code != NO_SUCH_KEY
    ensures writeFault == ReportWriteFails ==> r.store == store
    ensures GetObject(store, DataKey(fn), lookupFault) == ClientError(NO_SUCH_KEY) && writeFault == MarkerWriteFails ==>
              r == SaveResult(store[DataKey(fn) := pdf], Raised(UploadFailed))
    ensures var g := GetObject(store, DataKey(fn), lookupFault);
            g.ClientError? && g.code != NO_SUCH_KEY ==> r == SaveResult(store, Raised(ClientFailure(g.code)))
  {
    var key := DataKey(fn);
    var lookup := GetObject(store, key, lookupFault);
    if lookup.Found? then SaveResult(store, AlreadyExists)
    else if lookup != ClientError(NO_SUCH_KEY) then SaveResult(store, Raised(ClientFailure(lookup.code)))
    else if writeFault == ReportWriteFails then SaveResult(store, Raised(UploadFailed))
    else if writeFault == MarkerWriteFails then SaveResult(store[key := pdf], Raised(UploadFailed))
    else
      assert lookup == ClientError(NO_SUCH_KEY);
      assert writeFault == NoWriteFault;
      SaveResult(store[key := pdf][ChangelogKey(fn) := []], Uploaded)
  }

  /** `save_rob`: the file name from the date, then the guarded upload. */
  function SaveRob(store: Store, url: string, modDate: string, pdf: Blob,
                   lookupFault: Option<string>, writeFault: WriteFault): (r: SaveResult)
    ensures r.status == Raised(NoDigitsInDate) <==> ReportFileName(modDate, url).Failure?
    ensures r.status == Raised(NoDigitsInDate) ==> r.store == store
  {
    match ReportFileName(modDate, url)
    case Failure(e) => SaveResult(store, Raised(e))
    case Success(fn) => SaveAs(store, fn, pdf, lookupFault, writeFault)
  }

  /**
   An upload adds exactly two objects, the report under its data key and the
   empty marker under its changelog key, and leaves every other object alone.
   */
  lemma SaveRobWrites(store: Store, url: string, modDate: string, pdf: Blob)
    ensures SaveRob(store, url, modDate, pdf, None, NoWriteFault).status.Uploaded? ==>
              ReportFileName(modDate, url).Success?
    ensures SaveRob(store, url, modDate, pdf, None, NoWriteFault).status.Uploaded? ==>
            var fn := ReportFileName(modDate, url).value;
            var saved := SaveRob(store, url, modDate, pdf, None, NoWriteFault).store;
            && DataKey(fn) !in store
            && saved.Keys == store.Keys + {DataKey(fn), ChangelogKey(fn)}
            && saved[DataKey(fn)] == pdf && saved[ChangelogKey(fn)] == []
            && forall k :: k in store && k != ChangelogKey(fn) ==> saved[k] == store[k]
  {
    if !SaveRob(store, url, modDate, pdf, None, NoWriteFault).status.Uploaded? {
      return;
    }
    var fn := ReportFileName(modDate, url).value;
    assert SaveRob(store, url, modDate, pdf, None, NoWriteFault) == SaveAs(store, fn, pdf, None, NoWriteFault);
    UploadAdds(store, fn, pdf);
  }

  lemma UploadAdds(store: Store, fn: string, pdf: Blob)
    requires SaveAs(store, fn, pdf, None, NoWriteFault).status.Uploaded?
    ensures var saved := SaveAs(store, fn, pdf, None, NoWriteFault).store;
            && DataKey(fn) !in store
            && saved.Keys == store.Keys + {DataKey(fn), ChangelogKey(fn)}
            && saved[DataKey(fn)] == pdf && saved[ChangelogKey(fn)] == []
            && forall k :: k in store && k != ChangelogKey(fn) ==> saved[k] == store[k]
  {
    KeysDiffer(fn);
  }

  /**
   Invoking the function again for the same report writes nothing: its key now
   exists, whatever the second download holds.
   */
  lemma SaveRobIdempotent(store: Store, url: string, modDate: string, pdf: Blob, again: Blob, writeFault: WriteFault)
    ensures var first := SaveRob(store, url, modDate, pdf, None, NoWriteFault);
            first.status.Uploaded? || first.status == AlreadyExists ==>
              SaveRob(first.store, url, modDate, again, None, writeFault) == SaveResult(first.store, AlreadyExists)
  {
    var first := SaveRob(store, url, modDate, pdf, None, NoWriteFault);
    if !(first.status.Uploaded? || first.status == AlreadyExists) {
      return;
    }
    var fn := ReportFileName(modDate, url).value;
    assert first == SaveAs(store, fn, pdf, None, NoWriteFault);
    SaveAsKeepsReport(store, fn, pdf);
    assert SaveRob(first.store, url, modDate, again, None, writeFault) == SaveAs(first.store, fn, again, None, writeFault);
  }

  /** After an upload or a found report, the report's key is in the bucket. */
  lemma SaveAsKeepsReport(store: Store, fn: string, pdf: Blob)
    ensures var r := SaveAs(store, fn, pdf, None, NoWriteFault);
            r.status.Uploaded? || r.status == AlreadyExists ==> DataKey(fn) in r.store
  {
    KeysDiffer(fn);
  }

  // ---------------------------------------------------------------- RobHistoricizerAWS

  /** `path_join.join(parts)` with the "/" the object store uses. */
  function PathJoin(parts: seq<string>): string
  {
    Join("/", parts)
  }

  /** The catalogue read at start-up. */
  function CataloguePath(): (p: string)
    ensures p == "data/interim/catalogued_finding_places.csv"
  {
    JoinPair("/", INTERIM_PREFIX, "catalogued_finding_places.csv");
    PathJoin([INTERIM_PREFIX, "catalogued_finding_places.csv"])
  }

  /** The historized table read at start-up. */
  function HistoryPath(): (p: string)
    ensures p == "data/deployment/rob.csv"
  {
    JoinPair("/", DEPLOYMENT_PREFIX, "rob.csv");
    PathJoin([DEPLOYMENT_PREFIX, "rob.csv"])
  }

  /** `_read_csv`: the address pandas reads a key of the bucket from. */
  function CsvUrl(path: string): (u: string)
    ensures u == "s3://rob-oliver/" + path
  {
    JoinTriple("/", "s3:/", BUCKET, path);
    PathJoin(["s3:/", BUCKET, path])
  }

  function NonEmpty(): string -> bool
  {
    (s: string) => s != ""
  }

  /** The basenames of a listing's keys. */
  lemma BasenamesOf(keys: seq<string>)
    ensures forall n :: n in Project(keys, Basename) <==> exists k :: k in keys && Basename(k) == n
  {
    var bases := Project(keys, Basename);
    forall n
      ensures n in bases <==> exists k :: k in keys && Basename(k) == n
    {
      if n in bases {
        var i :| 0 <= i < |bases| && bases[i] == n;
        assert keys[i] in keys;
      }
      if exists k :: k in keys && Basename(k) == n {
        var k :| k in keys && Basename(k) == n;
        var i :| 0 <= i < |keys| && keys[i] == k;
        assert bases[i] == n;
      }
    }
  }

  /** The changelog names among the keys of a listing: their non-empty basenames, in order. */
  function ChangelogNames(keys: seq<string>): (names: seq<string>)
    ensures forall n :: n in names <==> n != "" && exists k :: k in keys && Basename(k) == n
  {
    var bases := Project(keys, Basename);
    BasenamesOf(keys);
    var names := Filter(bases, NonEmpty());
    assert forall n :: n in names <==> n in bases && n != "";
    names
  }

  /** Listing keys in two batches gives the names of the first batch followed by those of the second. */
  lemma ChangelogNamesConcat(a: seq<string>, b: seq<string>)
    ensures ChangelogNames(a + b) == ChangelogNames(a) + ChangelogNames(b)
  {
    assert Project(a + b, Basename) == Project(a, Basename) + Project(b, Basename);
    FilterConcat(Project(a, Basename), Project(b, Basename), NonEmpty());
  }

  /** A single key contributes its basename, unless that is empty (a "directory" key). */
  lemma ChangelogNamesSingle(k: string)
    ensures ChangelogNames([k]) == if Basename(k) == "" then [] else [Basename(k)]
  {
    assert Project([k], Basename) == [Basename(k)];
    assert Filter([Basename(k)][1..], NonEmpty()) == [];
  }

  /**
   `_get_changelogs`, given the keys `list_objects_v2` returns under the changelog
   prefix; `None` when the answer has no "Contents", which raises `KeyError`.
   */
  function GetChangelogs(listing: Option<seq<string>>): (r: Result<seq<string>, Error>)
    ensures r.Failure? <==> listing.None?
    ensures r.Failure? ==> r.error == NoListing
    ensures r.Success? ==> forall n :: n in r.value ==> n != "" && '/' !in n
    ensures r.Success? ==> forall n :: n in r.value <==> n != "" && exists k :: k in listing.value && Basename(k) == n
    ensures listing.Some? ==> r == Success(ChangelogNames(listing.value))
  {
    match listing
    case None => Failure(NoListing)
    case Some(keys) => Success(ChangelogNames(keys))
  }

  /** The key `_delete_changelog` removes: the changelog name under data/changelog. */
  function MarkerKey(name: string): (k: string)
    ensures StartsWith(k, "data/changelog/") && EndsWith(k, name) && |k| == |"data/changelog/"| + |name|
    ensures '/' !in name ==> Basename(k) == name
  {
    JoinPair("/", CHANGELOG_PREFIX, name);
    var k := PathJoin([CHANGELOG_PREFIX, name]);
    if '/' in name then k
    else
      BasenameOfChild(CHANGELOG_PREFIX, name);
      k
  }

  /** `_delete_changelog`: the marker is gone and every other object is untouched. */
  function DeleteChangelog(store: Store, name: string): (r: Store)
    ensures MarkerKey(name) !in r
    ensures forall k :: k != MarkerKey(name) ==> (k in r <==> k in store)
    ensures forall k :: k in r ==> r[k] == store[k]
  {
    store - {MarkerKey(name)}
  }

  /** The key `_get_rob_raw` reads for a changelog: its name with the last three characters replaced by "pdf". */
  function RawKeyFor(changelog: string): (k: string)
    ensures StartsWith(k, "data/raw/") && EndsWith(k, "pdf")
    ensures '/' !in changelog ==> Basename(k) == DropLast(changelog, 3) + "pdf"
  {
    var name := DropLast(changelog, 3) + "pdf";
    JoinPair("/", RAW_PREFIX, name);
    var k := PathJoin([RAW_PREFIX, name]);
    if '/' in changelog then k
    else
      DropLastPlain(changelog, 3);
      BasenameOfChild(RAW_PREFIX, name);
      k
  }

  /** `_get_rob_raw`: the report a changelog points to; a missing object raises. */
  function GetRobRaw(store: Store, changelog: string): (r: Result<Blob, Error>)
    ensures r.Success? <==> RawKeyFor(changelog) in store
    ensures r.Success? ==> r.value == store[RawKeyFor(changelog)]
    ensures r.Failure? ==> r.error == ClientFailure(NO_SUCH_KEY)
  {
    var key := RawKeyFor(changelog);
    if key in store then Success(store[key]) else Failure(ClientFailure(NO_SUCH_KEY))
  }

  /** `rob_raw`: one report per changelog, in the same order; the first missing report raises. */
  function RobRaw(store: Store, changelogs: seq<string>): (r: Result<seq<Blob>, Error>)
    ensures r.Success? <==> forall i :: 0 <= i < |changelogs| ==> RawKeyFor(changelogs[i]) in store
    ensures r.Success? ==> |r.value| == |changelogs|
    ensures r.Success? ==> forall i :: 0 <= i < |changelogs| ==> r.value[i] == store[RawKeyFor(changelogs[i])]
  {
    if |changelogs| == 0 then Success([])
    else
      var first := GetRobRaw(store, changelogs[0]);
      if first.Failure? then Failure(first.error)
      else
        var rest := RobRaw(store, changelogs[1..]);
        assert forall i :: 1 <= i < |changelogs| ==> changelogs[i] == changelogs[1..][i - 1];
        if rest.Failure? then
          assert exists i :: 1 <= i < |changelogs| && RawKeyFor(changelogs[i]) !in store by {
            var i :| 0 <= i < |changelogs[1..]| && RawKeyFor(changelogs[1..][i]) !in store;
            assert RawKeyFor(changelogs[i + 1]) !in store;
          }
          Failure(rest.error)
        else Success([first.value] + rest.value)
  }

  // ---------------------------------------------------------------- round trip

  /**
   The marker written for a report names it back: the reader's changelog name
   for the marker leads to the report's key, and deleting that changelog removes
   exactly the marker.
   */
  lemma MarkerRoundTrip(fileName: string)
    requires '/' !in fileName && EndsWith(fileName, "pdf")
    ensures Basename(ChangelogKey(fileName)) == DropLast(fileName, 3) + "log"
    ensures RawKeyFor(Basename(ChangelogKey(fileName))) == DataKey(fileName)
    ensures MarkerKey(Basename(ChangelogKey(fileName))) == ChangelogKey(fileName)
  {
    var stem := DropLast(fileName, 3);
    var name := stem + "log";
    assert '/' !in name by {
      assert forall i :: 0 <= i < |stem| ==> stem[i] == fileName[i];
    }
    assert ChangelogKey(fileName) == CHANGELOG_PREFIX + "/" + name;
    BasenameOfChild(CHANGELOG_PREFIX, name);
    JoinPair("/", CHANGELOG_PREFIX, name);
    JoinPair("/", RAW_PREFIX, stem + "pdf");
    assert DropLast(name, 3) == stem;
    assert stem + "pdf" == fileName;
  }

  /** A dated file name is a plain name, and keeps the basename's "pdf" ending. */
  lemma FileNameShape(date: string, url: string)
    requires AllDigits(date) && EndsWith(Basename(url), "pdf")
    ensures '/' !in FileName(date, url) && EndsWith(FileName(date, url), "pdf")
  {
    EndsWithTransitive(FileName(date, url), Basename(url), "pdf");
  }

  /**
   A report the function uploads is found by the reader: the marker's changelog
   name yields the uploaded contents.
   */
  lemma UploadedReportIsFound(store: Store, url: string, modDate: string, pdf: Blob)
    ensures var r := SaveRob(store, url, modDate, pdf, None, NoWriteFault);
            var fn := ReportFileName(modDate, url);
            EndsWith(Basename(url), "pdf") && r.status.Uploaded? ==>
              && fn.Success?
              && ChangelogKey(fn.value) in r.store
              && GetRobRaw(r.store, Basename(ChangelogKey(fn.value))) == Success(pdf)
  {
    if !(EndsWith(Basename(url), "pdf") && SaveRob(store, url, modDate, pdf, None, NoWriteFault).status.Uploaded?) {
      return;
    }
    SaveRobWrites(store, url, modDate, pdf);
    var fn := ReportFileName(modDate, url).value;
    FileNameShape(ModificationDate(modDate).value, url);
    MarkerRoundTrip(fn);
  }
}
