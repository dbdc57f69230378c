/** `Conference` and its `scrape` join for one (conference, year): schedule
    page, then one detail page per paper, then one page per distinct author id,
    joined into rows. Fetches go through the retry policy of `Fetch`; the
    concurrent `asyncio.gather` is modelled in list order (see `Gather`). */
module Crawl {
  import opened Wrappers
  import opened Text
  import opened Numbers
  import opened Fetch
  import opened Pages

  datatype Conference = Conference(name: string, host: string, firstYear: int) {

    function PapersUrl(year: int): string {
      "https://" + host + "/Conferences/" + FormatInt(year) + "/Schedule"
    }

    function PaperUrl(year: int, id: string): string {
      PapersUrl(year) + "?showEvent=" + id
    }

    function AuthorUrl(year: int, id: string): string {
      PapersUrl(year) + "?showSpeaker=" + id
    }
  }

  /** The id is the tail of the author URL, so distinct ids give distinct URLs
      (and likewise for paper URLs). */
  lemma UrlsDetermineId(c: Conference, year: int, a: string, b: string)
    ensures c.AuthorUrl(year, a) == c.AuthorUrl(year, b) ==> a == b
    ensures c.PaperUrl(year, a) == c.PaperUrl(year, b) ==> a == b
  {
    var p := c.PapersUrl(year) + "?showSpeaker=";
    var q := c.PapersUrl(year) + "?showEvent=";
    assert (p + a)[|p|..] == a && (p + b)[|p|..] == b;
    assert (q + a)[|q|..] == a && (q + b)[|q|..] == b;
  }

  /** One output row (a DataFrame row with columns Conference, Year, Title,
      Author, Affiliation). */
  datatype Row = Row(conference: string, year: int, title: string, author: string, affiliation: string)

  /** What the remote site answers: for each URL, the outcome of each attempt. */
  datatype Site = Site(
    schedule: string -> nat -> Attempt<seq<Card>>,
    paper: string -> nat -> Attempt<PaperPage>,
    author: string -> nat -> Attempt<AuthorPage>)

  /** `await load_doc_from_url(...)`: the retried fetch, as a value or an exception. */
  function Fetched<D>(call: nat -> Attempt<D>): (r: Result<D, Error>)
    ensures r.Ok? <==> Retry(LoadDocTries, call).outcome.Value?
  {
    match Retry(LoadDocTries, call).outcome
    case Value(d) => Ok(d)
    case Failed(e) => Err(e)
    // `None.select(...)`; five tries never return None
    case NoneReturned => Err(AttributeError)
  }

  /** `asyncio.gather` without `return_exceptions`: all results in order, or the
      first failure, which fails the whole batch. Which failure surfaces first
      depends on timing; the model takes the first in list order. */
  function Gather<T>(rs: seq<Result<T, Error>>): (r: Result<seq<T>, Error>)
    ensures r.Ok? <==> forall i :: 0 <= i < |rs| ==> rs[i].Ok?
    ensures r.Ok? ==> |r.value| == |rs| && forall i :: 0 <= i < |rs| ==> rs[i] == Ok(r.value[i])
    ensures r.Err? ==> exists i :: 0 <= i < |rs| && rs[i] == Err(r.error)
    decreases |rs|
  {
    if rs == [] then Ok([])
    else
      match rs[0]
      case Err(e) => Err(e)
      case Ok(v) =>
        var rest := Gather(rs[1..]);
        assert forall i :: 1 <= i < |rs| ==> rs[i] == rs[1..][i - 1];
        match rest
        case Err(e) => Err(e)
        case Ok(vs) => Ok([v] + vs)
  }

  lemma {:induction false} GatherAllOk<T>(rs: seq<Result<T, Error>>, vs: seq<T>)
    requires |rs| == |vs| && forall i :: 0 <= i < |rs| ==> rs[i] == Ok(vs[i])
    ensures Gather(rs) == Ok(vs)
    decreases |rs|
  {
    if rs != [] {
      GatherAllOk(rs[1..], vs[1..]);
      assert vs == [vs[0]] + vs[1..];
    }
  }

  function LoadPaperIds(site: Site, url: string): Result<seq<string>, Error> {
    var cards :- Fetched(site.schedule(url));
    PaperIds(cards)
  }

  function LoadPaperAt(site: Site, url: string): Result<Paper, Error> {
    var page :- Fetched(site.paper(url));
    LoadPaper(page)
  }

  function LoadAuthorAt(site: Site, url: string): Result<(string, string), Error> {
    var page :- Fetched(site.author(url));
    LoadAuthor(page)
  }

  /** Every author id of every paper, paper by paper, in button order. */
  function AllAuthorIds(papers: seq<Paper>): seq<string>
    decreases |papers|
  {
    if papers == [] then []
    else seq(|papers[0].authors|, j requires 0 <= j < |papers[0].authors| => papers[0].authors[j].id)
         + AllAuthorIds(papers[1..])
  }

  predicate NoDup<T(==)>(s: seq<T>) {
    forall i, j :: 0 <= i < j < |s| ==> s[i] != s[j]
  }

  /** `list(set(ids))`: each id once. Python's set order is unspecified; the model
      keeps first occurrences in order. */
  function Distinct(s: seq<string>): (r: seq<string>)
    ensures NoDup(r)
    ensures forall x :: x in r <==> x in s
    decreases |s|
  {
    if s == [] then []
    else
      var r := Distinct(s[..|s| - 1]);
      assert forall x :: x in s <==> x in s[..|s| - 1] || x == s[|s| - 1];
      if s[|s| - 1] in r then r else r + [s[|s| - 1]]
  }

  /** A duplicate-free sequence has as many elements as its set. */
  lemma {:induction false} NoDupCardinality<T>(s: seq<T>)
    requires NoDup(s)
    ensures |set x | x in s| == |s|
    decreases |s|
  {
    if s != [] {
      var init := s[..|s| - 1];
      NoDupCardinality(init);
      assert (set x | x in s) == (set x | x in init) + {s[|s| - 1]};
      assert s[|s| - 1] !in init;
    }
  }

  /** The URLs of the author pages `scrape` fetches. */
  function AuthorUrls(c: Conference, year: int, papers: seq<Paper>): seq<string> {
    var ids := Distinct(AllAuthorIds(papers));
    seq(|ids|, k requires 0 <= k < |ids| => c.AuthorUrl(year, ids[k]))
  }

  /** One author page per distinct speaker id: no URL twice, every referenced id's
      page among them, and as many pages as there are distinct ids. */
  lemma AuthorUrlsDistinct(c: Conference, year: int, papers: seq<Paper>)
    ensures NoDup(AuthorUrls(c, year, papers))
    ensures |AuthorUrls(c, year, papers)| == |set id | id in AllAuthorIds(papers)|
    ensures forall id :: id in AllAuthorIds(papers) ==> c.AuthorUrl(year, id) in AuthorUrls(c, year, papers)
  {
    var all := AllAuthorIds(papers);
    var ids := Distinct(all);
    var urls := AuthorUrls(c, year, papers);
    forall i, j | 0 <= i < j < |urls|
      ensures urls[i] != urls[j]
    {
      UrlsDetermineId(c, year, ids[i], ids[j]);
    }
    NoDupCardinality(ids);
    assert (set id | id in all) == (set id | id in ids);
    forall id | id in all
      ensures c.AuthorUrl(year, id) in urls
    {
      var k :| 0 <= k < |ids| && ids[k] == id;
      assert urls[k] == c.AuthorUrl(year, id);
    }
  }

  /** `dict(author_data)`: later (name, affiliation) pairs overwrite earlier ones. */
  function AffiliationTable(pairs: seq<(string, string)>): (t: map<string, string>)
    ensures forall name :: name in t <==> exists i :: 0 <= i < |pairs| && pairs[i].0 == name
    decreases |pairs|
  {
    if pairs == [] then map[]
    else
      var last := pairs[|pairs| - 1];
      var init := pairs[..|pairs| - 1];
      assert forall i :: 0 <= i < |init| ==> init[i] == pairs[i];
      AffiliationTable(init)[last.0 := last.1]
  }

  /** A name's entry is the affiliation of the last pair with that name. */
  lemma {:induction false} AffiliationTableLast(pairs: seq<(string, string)>, i: nat)
    requires i < |pairs|
    requires forall j :: i < j < |pairs| ==> pairs[j].0 != pairs[i].0
    ensures pairs[i].0 in AffiliationTable(pairs)
    ensures AffiliationTable(pairs)[pairs[i].0] == pairs[i].1
    decreases |pairs|
  {
    if i < |pairs| - 1 {
      var init := pairs[..|pairs| - 1];
      AffiliationTableLast(init, i);
    }
  }

  /** `affiliations.get(name, "N/A")`. */
  function Lookup(table: map<string, string>, name: string): string {
    if name in table then table[name] else "N/A"
  }

  /** A name in the table maps to the affiliation of some pair with that name. */
  lemma {:induction false} AffiliationTableFrom(pairs: seq<(string, string)>, name: string)
    requires name in AffiliationTable(pairs)
    ensures exists i :: 0 <= i < |pairs| && pairs[i] == (name, AffiliationTable(pairs)[name])
    decreases |pairs|
  {
    var last := pairs[|pairs| - 1];
    var init := pairs[..|pairs| - 1];
    if last.0 != name {
      AffiliationTableFrom(init, name);
      var i :| 0 <= i < |init| && init[i] == (name, AffiliationTable(init)[name]);
      assert pairs[i] == init[i];
    }
  }

  /** `aff` is what the pages allow for `name` in any order of the pages:
      "N/A" when no page has the name, and otherwise the affiliation of some
      page with that name. */
  predicate FromSomePage(pages: seq<(string, string)>, name: string, aff: string) {
    && ((forall i :: 0 <= i < |pages| ==> pages[i].0 != name) ==> aff == "N/A")
    && ((exists i :: 0 <= i < |pages| && pages[i].0 == name) ==>
          exists i :: 0 <= i < |pages| && pages[i] == (name, aff))
  }

  /** The lookup gives what the pages allow, whatever their order. */
  lemma LookupSomePage(pairs: seq<(string, string)>, name: string)
    ensures FromSomePage(pairs, name, Lookup(AffiliationTable(pairs), name))
  {
    if name in AffiliationTable(pairs) {
      AffiliationTableFrom(pairs, name);
    }
  }

  /** When every pair with the name carries the same affiliation, the lookup
      gives that affiliation, in whatever order the pairs come. */
  lemma LookupAgreeing(pairs: seq<(string, string)>, name: string, a: string)
    requires exists i :: 0 <= i < |pairs| && pairs[i].0 == name
    requires forall i :: 0 <= i < |pairs| && pairs[i].0 == name ==> pairs[i].1 == a
    ensures Lookup(AffiliationTable(pairs), name) == a
  {
    LookupSomePage(pairs, name);
  }

  /** Which of two pages with one name wins depends on their order alone. */
  lemma LookupOrderMatters(name: string, a: string, b: string)
    ensures Lookup(AffiliationTable([(name, a), (name, b)]), name) == b
    ensures Lookup(AffiliationTable([(name, b), (name, a)]), name) == a
  {
    assert [(name, a), (name, b)][..1] == [(name, a)];
    assert [(name, b), (name, a)][..1] == [(name, b)];
  }

  /** The affiliation a row gets: "N/A" when no author page carries the button's
      name; otherwise the affiliation of the last author page with that name. The
      lookup is by display name, so an id whose page spells the name differently
      yields "N/A", and two ids with the same name share one entry. */
  lemma LookupByName(pairs: seq<(string, string)>, name: string)
    ensures (forall i :: 0 <= i < |pairs| ==> pairs[i].0 != name) ==> Lookup(AffiliationTable(pairs), name) == "N/A"
    ensures forall i :: 0 <= i < |pairs| && pairs[i].0 == name && (forall j :: i < j < |pairs| ==> pairs[j].0 != name)
              ==> Lookup(AffiliationTable(pairs), name) == pairs[i].1
  {
    forall i | 0 <= i < |pairs| && pairs[i].0 == name && (forall j :: i < j < |pairs| ==> pairs[j].0 != name)
      ensures Lookup(AffiliationTable(pairs), name) == pairs[i].1
    {
      AffiliationTableLast(pairs, i);
    }
  }

  function PaperRows(conference: string, year: int, p: Paper, table: map<string, string>): seq<Row> {
    seq(|p.authors|, j requires 0 <= j < |p.authors| =>
      Row(conference, year, p.title, p.authors[j].name, Lookup(table, p.authors[j].name)))
  }

  /** The `papers` and `unnormalized` comprehensions plus the two inserted columns. */
  function Join(conference: string, year: int, papers: seq<Paper>, table: map<string, string>): seq<Row>
    decreases |papers|
  {
    if papers == [] then []
    else PaperRows(conference, year, papers[0], table) + Join(conference, year, papers[1..], table)
  }

  /** The total number of author buttons over all papers. */
  function AuthorCount(papers: seq<Paper>): nat
    decreases |papers|
  {
    if papers == [] then 0 else |papers[0].authors| + AuthorCount(papers[1..])
  }

  lemma {:induction false} AuthorCountPrefix(papers: seq<Paper>, i: nat)
    requires 0 < i <= |papers|
    ensures AuthorCount(papers[..i]) == |papers[0].authors| + AuthorCount(papers[1..][..i - 1])
  {
    assert papers[..i][1..] == papers[1..][..i - 1];
  }

  /** One row per paper and author, paper order first and button order second:
      the row for author `j` of paper `i` sits at the number of authors of the
      papers before `i`, plus `j`. */
  lemma {:induction false} JoinAt(conference: string, year: int, papers: seq<Paper>, table: map<string, string>, i: nat, j: nat)
    requires i < |papers| && j < |papers[i].authors|
    ensures |Join(conference, year, papers, table)| == AuthorCount(papers)
    ensures AuthorCount(papers[..i]) + j < AuthorCount(papers)
    ensures Join(conference, year, papers, table)[AuthorCount(papers[..i]) + j]
         == Row(conference, year, papers[i].title, papers[i].authors[j].name, Lookup(table, papers[i].authors[j].name))
    decreases |papers|
  {
    var rest := papers[1..];
    if i == 0 {
      assert papers[..0] == [];
      JoinLength(conference, year, rest, table);
    } else {
      JoinAt(conference, year, rest, table, i - 1, j);
      AuthorCountPrefix(papers, i);
      assert rest[i - 1] == papers[i];
    }
  }

  lemma {:induction false} JoinLength(conference: string, year: int, papers: seq<Paper>, table: map<string, string>)
    ensures |Join(conference, year, papers, table)| == AuthorCount(papers)
    decreases |papers|
  {
    if papers != [] {
      JoinLength(conference, year, papers[1..], table);
    }
  }

  /** Every row belongs to some author button of some paper, with that paper's title. */
  lemma {:induction false} JoinRowsFromPapers(conference: string, year: int, papers: seq<Paper>, table: map<string, string>, r: Row)
    requires r in Join(conference, year, papers, table)
    ensures exists i, j :: 0 <= i < |papers| && 0 <= j < |papers[i].authors|
              && r == Row(conference, year, papers[i].title, papers[i].authors[j].name, Lookup(table, papers[i].authors[j].name))
    decreases |papers|
  {
    var first := PaperRows(conference, year, papers[0], table);
    if r in first {
      var j :| 0 <= j < |first| && first[j] == r;
      assert r == Row(conference, year, papers[0].title, papers[0].authors[j].name, Lookup(table, papers[0].authors[j].name));
    } else {
      JoinRowsFromPapers(conference, year, papers[1..], table, r);
      var i, j :| 0 <= i < |papers[1..]| && 0 <= j < |papers[1..][i].authors|
        && r == Row(conference, year, papers[1..][i].title, papers[1..][i].authors[j].name, Lookup(table, papers[1..][i].authors[j].name));
      assert papers[1..][i] == papers[i + 1];
    }
  }

  /** The paper tasks of `scrape`, one per id, in id order. */
  function PaperTasks(site: Site, c: Conference, year: int, ids: seq<string>): seq<Result<Paper, Error>> {
    seq(|ids|, i requires 0 <= i < |ids| => LoadPaperAt(site, c.PaperUrl(year, ids[i])))
  }

  /** The author tasks of `scrape`, one per author URL. */
  function AuthorTasks(site: Site, urls: seq<string>): seq<Result<(string, string), Error>> {
    seq(|urls|, k requires 0 <= k < |urls| => LoadAuthorAt(site, urls[k]))
  }

  /** The first half of `scrape`: the schedule page, then every paper page. */
  function ScrapePapers(c: Conference, year: int, site: Site): Result<seq<Paper>, Error> {
    var ids :- LoadPaperIds(site, c.PapersUrl(year));
    Gather(PaperTasks(site, c, year, ids))
  }

  /** The second half: the (name, affiliation) of every author page of the papers. */
  function ScrapeAuthors(c: Conference, year: int, site: Site, papers: seq<Paper>): Result<seq<(string, string)>, Error> {
    Gather(AuthorTasks(site, AuthorUrls(c, year, papers)))
  }

  /** `Conference.scrape(year)`: rows exactly when both halves succeed, one
      row per author button of the papers. */
  function Scrape(c: Conference, year: int, site: Site): (r: Result<seq<Row>, Error>)
    ensures r.Ok? <==> ScrapePapers(c, year, site).Ok? && ScrapeAuthors(c, year, site, ScrapePapers(c, year, site).value).Ok?
    ensures r.Ok? ==> |r.value| == AuthorCount(ScrapePapers(c, year, site).value)
  {
    var papers :- ScrapePapers(c, year, site);
    var authors :- ScrapeAuthors(c, year, site, papers);
    JoinLength(c.name, year, papers, AffiliationTable(authors));
    Ok(Join(c.name, year, papers, AffiliationTable(authors)))
  }

  /** A schedule card without an `id` attribute fails `load_paper_ids` with
      KeyError, and with it the whole (conference, year). */
  lemma CardWithoutIdFailsScrape(c: Conference, year: int, site: Site, cards: seq<Card>, i: int)
    requires Fetched(site.schedule(c.PapersUrl(year))) == Ok(cards)
    requires 0 <= i < |cards| && !HasId(cards[i])
    ensures LoadPaperIds(site, c.PapersUrl(year)) == Err(KeyError)
    ensures Scrape(c, year, site) == Err(KeyError)
  {
  }

  /** A scrape yields rows only when the schedule page, every paper page and
      every author page loaded: one failing page fails the whole (conference,
      year). */
  lemma ScrapeNeedsEveryPage(c: Conference, year: int, site: Site)
    requires Scrape(c, year, site).Ok?
    ensures LoadPaperIds(site, c.PapersUrl(year)).Ok?
    ensures forall id :: id in LoadPaperIds(site, c.PapersUrl(year)).value ==> LoadPaperAt(site, c.PaperUrl(year, id)).Ok?
    ensures forall u :: u in AuthorUrls(c, year, ScrapePapers(c, year, site).value) ==> LoadAuthorAt(site, u).Ok?
  {
    var ids := LoadPaperIds(site, c.PapersUrl(year)).value;
    forall id | id in ids
      ensures LoadPaperAt(site, c.PaperUrl(year, id)).Ok?
    {
      var i :| 0 <= i < |ids| && ids[i] == id;
      assert PaperTasks(site, c, year, ids)[i].Ok?;
    }
    var urls := AuthorUrls(c, year, ScrapePapers(c, year, site).value);
    forall u | u in urls
      ensures LoadAuthorAt(site, u).Ok?
    {
      var k :| 0 <= k < |urls| && urls[k] == u;
      assert AuthorTasks(site, urls)[k].Ok?;
    }
  }

  /** Every row's affiliation, in whatever order the author pages come back:
      "N/A" when no fetched author page carries the row's author name, and
      otherwise the affiliation of some page with that name. */
  lemma ScrapeAffiliations(c: Conference, year: int, site: Site)
    requires Scrape(c, year, site).Ok?
    ensures var pages := ScrapeAuthors(c, year, site, ScrapePapers(c, year, site).value).value;
      forall r :: r in Scrape(c, year, site).value ==> FromSomePage(pages, r.author, r.affiliation)
  {
    var papers := ScrapePapers(c, year, site).value;
    var pages := ScrapeAuthors(c, year, site, papers).value;
    var table := AffiliationTable(pages);
    forall r | r in Scrape(c, year, site).value
      ensures r.affiliation == Lookup(table, r.author)
    {
      JoinRowsFromPapers(c.name, year, papers, table, r);
    }
    forall r | r in Scrape(c, year, site).value
      ensures FromSomePage(pages, r.author, r.affiliation)
    {
      LookupSomePage(pages, r.author);
    }
  }

  /** When every fetched author page with a row's name agrees on one
      affiliation, the row carries exactly that affiliation. */
  lemma ScrapeAgreeingPages(c: Conference, year: int, site: Site, r: Row, a: string)
    requires Scrape(c, year, site).Ok? && r in Scrape(c, year, site).value
    requires var pages := ScrapeAuthors(c, year, site, ScrapePapers(c, year, site).value).value;
      && (exists i :: 0 <= i < |pages| && pages[i].0 == r.author)
      && (forall i :: 0 <= i < |pages| && pages[i].0 == r.author ==> pages[i].1 == a)
    ensures r.affiliation == a
  {
    ScrapeAffiliations(c, year, site);
  }

  /** A text that `.strip()` leaves as it is. */
  predicate Stripped(s: string) {
    Strip(s, Whitespace) == s
  }

  /** A schedule with two papers that both list speaker `id` under the same name
      `name`, whose author page gives `aff`. */
  function SharedAuthorSite(title: string, name: string, aff: string, id: string): Site {
    Site(
      url => i => Returned([Card(Some("maincard_1")), Card(Some("maincard_2"))]),
      url => i => Returned(PaperPage(Some(PaperBox([title], [Button(name, SpeakerCall + id + SpeakerClose)])))),
      url => i => Returned(AuthorPage(Some(AuthorBox(Some(name), Some(aff))))))
  }

  lemma FetchedAtOnce<D>(call: nat -> Attempt<D>, d: D)
    requires call(0) == Returned(d)
    ensures Fetched(call) == Ok(d)
  {
  }

  lemma SharedAuthorButton(name: string, id: string)
    requires Stripped(name) && IsSpeakerId(id)
    ensures SpeakerButtons([Button(name, SpeakerCall + id + SpeakerClose)]) == Ok([AuthorRef(name, id)])
  {
    var onclick := SpeakerCall + id + SpeakerClose;
    assert onclick == SpeakerCall + id + SpeakerClose + "";
    MatchSpeakerOf(id, "");
    MentionsSpeaker(id, "");
    SpeakerButtonOne(Button(name, onclick), id);
  }

  lemma SharedAuthorPaper(title: string, name: string, aff: string, id: string, url: string)
    requires Stripped(title) && Stripped(name) && IsSpeakerId(id)
    ensures LoadPaperAt(SharedAuthorSite(title, name, aff, id), url) == Ok(Paper(title, [AuthorRef(name, id)]))
  {
    var button := Button(name, SpeakerCall + id + SpeakerClose);
    SharedAuthorButton(name, id);
    FetchedAtOnce(SharedAuthorSite(title, name, aff, id).paper(url), PaperPage(Some(PaperBox([title], [button]))));
  }

  lemma SharedAuthorPage(title: string, name: string, aff: string, id: string, url: string)
    requires Stripped(name) && Stripped(aff)
    ensures LoadAuthorAt(SharedAuthorSite(title, name, aff, id), url) == Ok((name, aff))
  {
    FetchedAtOnce(SharedAuthorSite(title, name, aff, id).author(url), AuthorPage(Some(AuthorBox(Some(name), Some(aff)))));
  }

  lemma SharedAuthorIds(site: Site, url: string)
    requires site.schedule(url)(0) == Returned([Card(Some("maincard_1")), Card(Some("maincard_2"))])
    ensures LoadPaperIds(site, url) == Ok(["1", "2"])
  {
    var cards := [Card(Some("maincard_1")), Card(Some("maincard_2"))];
    FetchedAtOnce(site.schedule(url), cards);
    assert PaperIds(cards).value == ["1", "2"];
  }

  lemma SharedAuthorPapers(c: Conference, year: int, title: string, name: string, aff: string, id: string, ids: seq<string>)
    requires Stripped(title) && Stripped(name) && IsSpeakerId(id)
    requires |ids| == 2
    ensures var paper := Paper(title, [AuthorRef(name, id)]);
      Gather(PaperTasks(SharedAuthorSite(title, name, aff, id), c, year, ids)) == Ok([paper, paper])
  {
    var paper := Paper(title, [AuthorRef(name, id)]);
    var rs := PaperTasks(SharedAuthorSite(title, name, aff, id), c, year, ids);
    var vs := [paper, paper];
    forall i | 0 <= i < |ids|
      ensures rs[i] == Ok(vs[i])
    {
      assert vs[i] == paper by {
        assert i == 0 || i == 1;
      }
      SharedAuthorPaper(title, name, aff, id, c.PaperUrl(year, ids[i]));
    }
    GatherAllOk(rs, vs);
  }

  lemma SharedAuthorUrls(c: Conference, year: int, paper: Paper, name: string, id: string)
    requires paper.authors == [AuthorRef(name, id)]
    ensures AuthorUrls(c, year, [paper, paper]) == [c.AuthorUrl(year, id)]
  {
    var papers := [paper, paper];
    assert AllAuthorIds(papers) == [id, id] by {
      assert papers[1..][1..] == [];
      assert AllAuthorIds(papers[1..][1..]) == [];
      assert AllAuthorIds(papers[1..]) == [id];
    }
    assert Distinct([id, id]) == [id] by {
      assert [id, id][..1] == [id];
      assert [id][..0] == [];
      assert Distinct([id]) == [id];
    }
  }

  lemma SharedAuthorPages(title: string, name: string, aff: string, id: string, urls: seq<string>)
    requires Stripped(name) && Stripped(aff) && |urls| == 1
    ensures Gather(AuthorTasks(SharedAuthorSite(title, name, aff, id), urls)) == Ok([(name, aff)])
  {
    var site := SharedAuthorSite(title, name, aff, id);
    SharedAuthorPage(title, name, aff, id, urls[0]);
    var loaded := AuthorTasks(site, urls);
    assert |loaded| == 1 && loaded[0] == LoadAuthorAt(site, urls[0]);
    assert loaded == [Ok((name, aff))];
    GatherAllOk(loaded, [(name, aff)]);
  }

  lemma SharedAuthorJoin(conference: string, year: int, title: string, name: string, aff: string, id: string)
    ensures var paper := Paper(title, [AuthorRef(name, id)]);
      Join(conference, year, [paper, paper], AffiliationTable([(name, aff)]))
      == [Row(conference, year, title, name, aff), Row(conference, year, title, name, aff)]
  {
    var paper := Paper(title, [AuthorRef(name, id)]);
    var pairs := [(name, aff)];
    var table := AffiliationTable(pairs);
    assert table == map[name := aff] by {
      assert pairs[..0] == [];
    }
    var row := Row(conference, year, title, name, aff);
    assert PaperRows(conference, year, paper, table) == [row];
    assert [paper, paper][1..] == [paper];
    assert [paper][1..] == [];
    assert Join(conference, year, [], table) == [];
    assert Join(conference, year, [paper], table) == [row];
  }

  /** Two papers that share a speaker id: one author page is fetched, and both
      rows carry the affiliation found on it. */
  lemma ScrapeSharedAuthor(c: Conference, year: int, title: string, name: string, aff: string, id: string)
    requires Stripped(title) && Stripped(name) && Stripped(aff) && IsSpeakerId(id)
    ensures var paper := Paper(title, [AuthorRef(name, id)]);
      |AuthorUrls(c, year, [paper, paper])| == 1
    ensures Scrape(c, year, SharedAuthorSite(title, name, aff, id))
         == Ok([Row(c.name, year, title, name, aff), Row(c.name, year, title, name, aff)])
  {
    var site := SharedAuthorSite(title, name, aff, id);
    var paper := Paper(title, [AuthorRef(name, id)]);
    SharedAuthorIds(site, c.PapersUrl(year));
    SharedAuthorPapers(c, year, title, name, aff, id, ["1", "2"]);
    SharedAuthorUrls(c, year, paper, name, id);
    SharedAuthorPages(title, name, aff, id, [c.AuthorUrl(year, id)]);
    SharedAuthorJoin(c.name, year, title, name, aff, id);
    assert ScrapePapers(c, year, site) == Ok([paper, paper]);
    assert Scrape(c, year, site) == Ok(Join(c.name, year, [paper, paper], AffiliationTable([(name, aff)])));
  }
}
