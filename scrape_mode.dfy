/** `scrape_mode`: read the year argument, scrape every target, and merge the
    new rows into the existing ones with duplicates dropped. */
module ScrapeMode {
  import opened Wrappers
  import opened Text
  import opened Fetch
  import opened Crawl
  import opened Numbers
  import opened YearArgs
  import opened TargetPlan
  import opened Merge

  /** How a run ends: the year-range message, an exception escaping `scrape_mode`,
      no targets (nothing is written), or the merged rows that are written out. */
  datatype ScrapeOutcome = InvalidYearRange | Crashed(error: Error) | NothingSaved | Saved(rows: seq<Row>)

  /** The targets `--years` selects among the configured conferences, or the
      outcome that ends the run before any request. */
  function TargetsFor(years: string): Result<seq<(Conference, int)>, ScrapeOutcome> {
    match ParseYears(years)
    case Range(start, end) => Ok(Targets(Conferences, YearRange(start, end)))
    case InvalidRange => Err(InvalidYearRange)
    case NotAnInteger => Err(Crashed(ValueError))
  }

  /** One `scrape` per target, in target order. */
  function TargetTasks(targets: seq<(Conference, int)>, site: Site): seq<Result<seq<Row>, Error>> {
    seq(|targets|, i requires 0 <= i < |targets| => Scrape(targets[i].0, targets[i].1, site))
  }

  /** `pd.concat(results, ignore_index=True)`. */
  function Concat(results: seq<seq<Row>>): (r: seq<Row>)
    ensures |r| == RowCount(results)
    decreases |results|
  {
    if results == [] then [] else results[0] + Concat(results[1..])
  }

  function RowCount(results: seq<seq<Row>>): nat
    decreases |results|
  {
    if results == [] then 0 else |results[0]| + RowCount(results[1..])
  }

  /** A row is in the concatenation exactly when it is in one of the frames. */
  lemma {:induction false} ConcatMembers(results: seq<seq<Row>>, x: Row)
    ensures x in Concat(results) <==> exists i :: 0 <= i < |results| && x in results[i]
    decreases |results|
  {
    if results != [] {
      ConcatMembers(results[1..], x);
      if x in Concat(results[1..]) {
        var i :| 0 <= i < |results[1..]| && x in results[1..][i];
        assert x in results[i + 1];
      }
      if exists i :: 0 <= i < |results| && x in results[i] {
        var i :| 0 <= i < |results| && x in results[i];
        if i > 0 {
          assert results[1..][i - 1] == results[i];
        }
      }
    }
  }

  /** What a run of `scrape_mode` ends in, for the existing rows `existing`
      (empty when the output file does not exist yet). */
  function ScrapeModeResult(years: string, existing: seq<Row>, site: Site): ScrapeOutcome {
    match TargetsFor(years)
    case Err(stop) => stop
    case Ok(targets) =>
      match Gather(TargetTasks(targets, site))
      case Err(e) => Crashed(e)
      case Ok(results) =>
        if results == [] then NothingSaved
        else Saved(Dedup(existing + Concat(results)))
  }

  /** `scrape_mode` itself, with the merge done in place on the combined frame. */
  method RunScrapeMode(years: string, existing: seq<Row>, site: Site) returns (outcome: ScrapeOutcome)
    ensures outcome == ScrapeModeResult(years, existing, site)
  {
    var selected := TargetsFor(years);
    if selected.Err? {
      return selected.error;
    }
    var targets := selected.value;
    var gathered := Gather(TargetTasks(targets, site));
    if gathered.Err? {
      return Crashed(gathered.error);
    }
    var results := gathered.value;
    if results == [] {
      return NothingSaved;
    }
    var combined := new Frame(existing + Concat(results));
    combined.DropDuplicates();
    outcome := Saved(combined.rows);
  }

  /** A text with a hyphen that does not start "digits-digits" scrapes nothing. */
  lemma InvalidRangeScrapesNothing(years: string, existing: seq<Row>, site: Site)
    requires ParseYears(years) == InvalidRange
    ensures ScrapeModeResult(years, existing, site) == InvalidYearRange
  {
  }

  /** A year argument with a hyphen that does not start with `\d+-\d+`
      scrapes nothing and ends with the invalid-range message. */
  lemma MalformedRangeScrapesNothing(years: string, existing: seq<Row>, site: Site)
    requires Contains(years, "-")
    requires forall da, db, rest :: !RangeText(years, da, db, rest)
    ensures ScrapeModeResult(years, existing, site) == InvalidYearRange
  {
    HyphenWithoutRangeIsInvalid(years);
  }

  /** One failing target fails the whole run: nothing is merged or written. */
  lemma {:induction false} FailingTargetCrashes(years: string, existing: seq<Row>, site: Site, i: nat)
    requires TargetsFor(years).Ok?
    requires i < |TargetsFor(years).value|
    requires Scrape(TargetsFor(years).value[i].0, TargetsFor(years).value[i].1, site).Err?
    ensures ScrapeModeResult(years, existing, site).Crashed?
  {
    var targets := TargetsFor(years).value;
    assert TargetTasks(targets, site)[i].Err?;
  }

  /** A saved run holds each (Conference, Year, Title, Author) once; the existing
      rows come first and win, a new row is kept only for a key the existing rows
      lack, and every saved row is an existing or a scraped one. */
  lemma SavedRows(years: string, existing: seq<Row>, site: Site)
    requires ScrapeModeResult(years, existing, site).Saved?
    ensures var targets := TargetsFor(years).value;
      var scraped := Concat(Gather(TargetTasks(targets, site)).value);
      var rows := ScrapeModeResult(years, existing, site).rows;
      && KeysDistinct(rows)
      && KeySet(rows) == KeySet(existing + scraped)
      && rows == Dedup(existing) + DedupFrom(scraped, KeySet(existing))
      && IsSubsequence(rows, existing + scraped)
  {
    var targets := TargetsFor(years).value;
    var scraped := Concat(Gather(TargetTasks(targets, site)).value);
    DedupSpec(existing + scraped);
    ExistingRowsWin(existing, scraped);
  }

  /** The keys of the second part of a concatenation are keys of the whole. */
  lemma KeysOfSecondPart(a: seq<Row>, b: seq<Row>)
    ensures KeySet(b) <= KeySet(a + b)
  {
    forall k | k in KeySet(b)
      ensures k in KeySet(a + b)
    {
      var i :| 0 <= i < |b| && KeyOf(b[i]) == k;
      assert (a + b)[|a| + i] == b[i];
    }
  }

  /** Rows whose keys are all already seen are all dropped. */
  lemma DedupFromAllSeen(rows: seq<Row>, seen: set<Key>)
    requires KeySet(rows) <= seen
    ensures DedupFrom(rows, seen) == []
  {
    DedupFromKeys(rows, seen);
  }

  /** Scraping the same results again and merging them into the file just
      written leaves it as it is: the merge is stable under a re-run. */
  lemma RescrapeChangesNothing(existing: seq<Row>, scraped: seq<Row>)
    ensures Dedup(Dedup(existing + scraped) + scraped) == Dedup(existing + scraped)
  {
    var saved := Dedup(existing + scraped);
    ExistingRowsWin(saved, scraped);
    DedupIdempotent(existing + scraped);
    DedupSpec(existing + scraped);
    KeysOfSecondPart(existing, scraped);
    DedupFromAllSeen(scraped, KeySet(saved));
    AppendEmpty(saved);
  }

  /** A single non-negative year selects the targets of that one year. */
  lemma SingleYearTargets(y: nat)
    ensures TargetsFor(FormatInt(y)) == Ok(Targets(Conferences, YearRange(y, y)))
  {
    ParseSingleYear([], y, []);
    AppendEmpty(FormatInt(y));
  }

  /** No targets gather into no results, so nothing is written. */
  lemma NoTargetsNothingSaved(years: string, existing: seq<Row>, site: Site)
    requires TargetsFor(years) == Ok([])
    ensures ScrapeModeResult(years, existing, site) == NothingSaved
  {
    assert TargetTasks([], site) == [];
  }

  /** A single year before every conference's first year selects no target, so
      nothing is written. */
  lemma YearBeforeAllConferences(y: nat, existing: seq<Row>, site: Site)
    requires y < 2006
    ensures ScrapeModeResult(FormatInt(y), existing, site) == NothingSaved
  {
    SingleYearTargets(y);
    NoTargetsBefore(y);
    NoTargetsNothingSaved(FormatInt(y), existing, site);
  }
}
