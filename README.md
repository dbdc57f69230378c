# research.py crawl and bookkeeping core, in Dafny

`research.py` is a command-line tool with two modes. `scrape` crawls the
schedule pages of ICML, NeurIPS and ICLR for a range of years. It reads each
paper's title and speaker buttons and each speaker's author page. It then joins
these into rows (Conference, Year, Title, Author, Affiliation) and merges them
with the rows already saved. `analyze` is an interactive prompt over the saved
rows. Its `/getcontacts` command searches the web for the top authors and
scrapes a website, a LinkedIn profile and an email address for each.

This project models the logic inside that I/O:

- the retry decorator and its progress counters (`fetch.dfy`);
- the extraction rules of the three page loaders (`pages.dfy`);
- the URL builders and the per-(conference, year) join of `Conference.scrape` (`crawl.dfy`);
- the `--years` argument (`years.dfy`) and the target list (`targets.dfy`);
- the merge with first-wins deduplication (`dedup.dfy`);
- `scrape_mode` end to end (`scrape_mode.dfy`);
- the email pattern and its first match (`email.dfy`);
- the contact heuristics of `get_contacts` (`contacts.dfy`);
- the most common affiliation and the school keyword test (`affiliations.dfy`);
- the command loop of `analyze_mode` with its one piece of state, the leaderboard length (`commands.dfy`).

Shared pieces:

- `wrappers.dfy`: Option and Result.
- `text.dfy`: Python's `strip`, `in`, `replace` and ASCII `lower`.
- `numbers.dfy`: `int()` on text, and the `{:d}` format.

The network, the search engine and the terminal are inputs. A site is a
function from URL and attempt number to what that attempt returns or raises.
The search is a function from query to results, or None where it raises. The
REPL is driven by a sequence of inputs: a line, end of input, or Ctrl-C.

Code in a stateful style stays imperative:

- The retry loop (`Fetch.RetryOnServerDisconnect`).
- The progress bar (`Fetch.Progress`, a class with its two counters).
- The in-place `drop_duplicates` (`Merge.Frame.DropDuplicates`).
- The `get_contacts` loop (`Contacts.GetContacts`).
- The `authors_info` loop (`Affiliations.AuthorsInfo`).
- The REPL (`Commands.Session`, a class whose `leaderboardLength` field the loop updates).

Each method is proved equal to a specification function. The properties are
then proved about those functions.

Behaviour a reader might not expect, which the model keeps as the code has it:

- The search query is `"<author> <affiliation or ''> contact information"`. There is no second search for a scholar profile.
- The website is the first search result, unfiltered.
- There is no mailto step and no surname preference.
- There is no delay between authors or between retries, because both sleeps are commented out.
- `asyncio.gather` has no `return_exceptions`. So one failing paper page or author page fails its whole (conference, year). One failing target fails the whole run.
- The affiliation table is keyed by the name on the author page, not by the speaker id.
- Ties in the most common affiliation go to the smallest value, because pandas sorts the modes. They do not go to the first value encountered.
- A missing `.maincard` raises IndexError, and a paper page without a body does too.
- A schedule card without an `id` attribute raises KeyError, which fails its whole (conference, year).
- The printed default email is the lower-cased `n/a`.
- At the prompt, end of input (`EOFError`) is caught by the generic handler. So it reports an error and the loop goes on, rather than quitting.

## Model

| member | source | states |
|---|---|---|
| Fetch.Retry | research.py:26-39 | the wrapper returns None exactly when `n_tries <= 0`, and makes at most `n_tries` attempts (none when `n_tries <= 0`); the full run is stated by `Fetch.RetryShape` |
| Fetch.RetryShape | research.py:26-39 | with `n_tries <= 0` the wrapper returns None after zero attempts; otherwise it makes between 1 and `n_tries` attempts, all but the last raised ClientError/Timeout, the outcome is the last attempt's value or exception, and a retryable exception ends the run only on attempt `n_tries` |
| Fetch.RetryFirstSuccess | research.py:30-32 | the first attempt that returns, after only retryable failures, gives the result after exactly that many attempts |
| Fetch.RetryFatal | research.py:30-36 | an exception other than ClientError/Timeout propagates at its first occurrence, with no further attempt |
| Fetch.RetryExhausted | research.py:33-36 | after `n_tries` retryable failures the last one is re-raised, after exactly `n_tries` attempts |
| Fetch.RetryOnServerDisconnect | research.py:29-37 | the `for` loop with early return and raise ends with exactly the outcome and attempt count of the retry specification |
| Fetch.Progress.constructor | research.py:154 | the bar starts at total 0, completed 0 |
| Fetch.LoadDocAttempt | research.py:44-50 | one attempt adds 1 to the expected total before the request, and 1 to completed only when a document comes back; without a bar nothing is counted |
| Fetch.LoadDocFromUrl | research.py:41-51 | the decorated fetch follows the retry specification with 5 tries; it raises the total by the number of attempts, raises completed by one exactly when it returns a document, and keeps completed ≤ total |
| Pages.PaperId | research.py:56 | `[9:]` keeps the tail of the card id: nine characters shorter, or empty for a card id shorter than nine characters |
| Pages.PaperIds | research.py:53-56 | one id per `.maincard.poster` card, in card order, each the card id without its first nine characters; a card without an `id` attribute fails the list with KeyError |
| Pages.PaperIdOfCard | research.py:56 | dropping the nine-character prefix gives back the id; a card id shorter than nine characters gives the empty id |
| Pages.MatchSpeaker | research.py:19 | a successful match yields a non-empty id of digits and hyphens |
| Pages.MatchSpeakerShape | research.py:19 | a matching onclick text starts with `showSpeaker('`, the matched id and `')` |
| Pages.MatchSpeakerOf | research.py:19 | conversely `showSpeaker('<id>')` followed by anything matches with exactly that id |
| Pages.MatchSpeakerAnchored | research.py:19 | the pattern is anchored: an onclick that does not start with `showSpeaker('` does not match, even if it contains the call later |
| Pages.MentionsSpeaker | research.py:65 | a well-formed speaker call passes the `"showSpeaker" in onclick` filter |
| Pages.Mentioning | research.py:64-65 | the filtered buttons are exactly those whose onclick contains `showSpeaker`, each kept as often as it occurs |
| Pages.MentioningOne | research.py:64-65 | one button is kept iff its onclick contains `showSpeaker` |
| Pages.MentioningAppend | research.py:64-65 | the filter keeps the buttons' order: filtering two lists one after the other is filtering the first and then the second |
| Pages.SpeakerRefs | research.py:66 | the references of the kept buttons succeed iff every one matches the pattern, else AttributeError; on success there is one per button |
| Pages.SpeakerRefsAt | research.py:66 | reference `k` is the stripped text and the matched id of button `k` |
| Pages.SpeakerButtons | research.py:62-66 | the author list succeeds iff every button mentioning `showSpeaker` matches the pattern, else AttributeError; on success it has one entry per such button |
| Pages.SpeakerButtonsAt | research.py:62-66 | author `k` is the stripped text and the matched id of the `k`-th button mentioning `showSpeaker`, and the filter keeps the buttons' order (`Pages.MentioningAppend`) |
| Pages.SpeakerButtonOne | research.py:62-66 | a single speaker button yields its stripped text and its id |
| Pages.LoadPaper | research.py:58-67 | a failure is IndexError or AttributeError; a loaded paper comes from a page with a card and a body, and has one author per button mentioning `showSpeaker`; the cases are stated by `Pages.LoadPaperCases` |
| Pages.LoadPaperCases | research.py:58-67 | no `.maincard` or no `.maincardBody` is IndexError; a bad speaker button is AttributeError; otherwise the paper is the stripped first body text and the speaker list, and the title is stripped |
| Pages.LoadAuthor | research.py:69-74 | an author page loads iff it has a card, an h3 and an h4; IndexError exactly when the card is missing, AttributeError otherwise |
| Pages.LoadAuthorCases | research.py:69-74 | an author page loads iff it has a card, an h3 and an h4; no card is IndexError, a missing heading AttributeError; name and affiliation are the stripped heading texts |
| Crawl.UrlsDetermineId | research.py:82-89 | two author URLs (or two paper URLs) of one conference and year are equal only for equal ids |
| Crawl.Fetched | research.py:54 | an awaited fetch succeeds exactly when the retried call returns a document |
| Crawl.Gather | research.py:95 | `gather` yields all results in task order iff every task succeeds; otherwise it fails with the error of one of the tasks |
| Crawl.GatherAllOk | research.py:102 | tasks that all succeed gather into their values, in order |
| Crawl.Distinct | research.py:97-99 | the author ids collected into a set hold each id once and exactly the ids that occur |
| Crawl.AuthorUrls | research.py:97-100 | one author URL per distinct speaker id; stated by `Crawl.AuthorUrlsDistinct` |
| Crawl.AuthorUrlsDistinct | research.py:97-102 | the author pages fetched are pairwise distinct URLs, as many as there are distinct speaker ids across all papers, and every id's page is among them |
| Crawl.AffiliationTable | research.py:103 | `dict(author_data)` has exactly the names of the author pages as keys |
| Crawl.AffiliationTableLast | research.py:103 | for a given order of the author pages, a name maps to the affiliation of the last page carrying that name |
| Crawl.AffiliationTableFrom | research.py:103 | a name in the table maps to the affiliation of some page with that name |
| Crawl.LookupByName | research.py:103-106 | for a given order of the author pages, a row's affiliation is "N/A" when no page carries the button's display name, and otherwise the affiliation of the last page with that name |
| Crawl.Lookup | research.py:106 | `affiliations.get(name, "N/A")`; what it gives over the table is stated by `Crawl.LookupSomePage` and `Crawl.LookupByName` |
| Crawl.LookupSomePage | research.py:103-106 | in any order of the pages: "N/A" when no page has the name, otherwise the affiliation of some page with that name |
| Crawl.LookupAgreeing | research.py:103-106 | in any order of the pages: when all pages with the name agree on an affiliation, the lookup gives it |
| Crawl.LookupOrderMatters | research.py:97-106 | two pages with one name and different affiliations give the affiliation of whichever comes last, so the result depends on the set order |
| Crawl.Join | research.py:105-118 | the `papers` and `unnormalized` comprehensions with the two inserted columns; its rows are stated by `Crawl.JoinAt`, `Crawl.JoinLength` and `Crawl.JoinRowsFromPapers` |
| Crawl.JoinAt | research.py:105-118 | the join has one row per paper and author: the row of author `j` of paper `i` sits after the authors of the earlier papers, and carries the conference, year, title, name and looked-up affiliation |
| Crawl.JoinLength | research.py:110-114 | the number of rows is the sum of the papers' author counts |
| Crawl.JoinRowsFromPapers | research.py:105-114 | every row belongs to some author button of some paper |
| Crawl.Scrape | research.py:91-119 | rows exactly when the schedule and paper pages and then the author pages all load, one row per author button of the papers |
| Crawl.CardWithoutIdFailsScrape | research.py:53-56 | a schedule card without an `id` attribute fails `load_paper_ids` and the whole (conference, year) with KeyError |
| Crawl.ScrapeNeedsEveryPage | research.py:91-102 | a scrape yields rows only when the schedule page, every paper page and every author page loaded |
| Crawl.ScrapeAffiliations | research.py:97-119 | in whatever order the author pages come back, each row's affiliation is "N/A" when no fetched page has the row's author name, and otherwise the affiliation of some page with that name |
| Crawl.ScrapeAgreeingPages | research.py:97-119 | when all fetched pages with a row's name agree, the row carries exactly that affiliation |
| Crawl.ScrapeSharedAuthor | research.py:91-119 | two papers sharing one speaker id: one author page is fetched, and the result is exactly two rows that both carry the affiliation found on it |
| YearArgs.ParseYears | research.py:136-143 | an invalid range needs a hyphen in the argument; an `int()` failure happens only without one |
| YearArgs.MatchRange | research.py:137-141 | the pattern yields a range of two non-negative numbers or the invalid-range message, never a ValueError |
| YearArgs.ParseDigitRange | research.py:136-141 | text that starts with digits, a hyphen and digits is the range of those two numbers, whatever follows |
| YearArgs.ParseYearRange | research.py:136-144 | `"A-B"` written in decimal, followed by anything but a digit, reads as the range A..B |
| YearArgs.ParseSingleYear | research.py:142-143 | a single non-negative year, with surrounding whitespace, reads as the range of that one year |
| YearArgs.HyphenatedRangeShape | research.py:136-141 | conversely, a hyphenated argument read as a range starts with digits, a hyphen and digits followed by a non-digit or nothing, and the range is the value of those two digit groups |
| YearArgs.HyphenWithoutRangeIsInvalid | research.py:136-140 | a hyphenated argument that does not start that way is the invalid-range message |
| YearArgs.ParseNegativeYear | research.py:136-140 | a negative single year contains a hyphen without leading digits, so it is rejected as an invalid range |
| TargetPlan.YearRange | research.py:144 | `range(start, end + 1)`: `end - start + 1` years (none when start > end), exactly the years between, increasing |
| TargetPlan.ConferenceTargets | research.py:159-162 | one conference's targets are exactly the given years at or after its first year |
| TargetPlan.ConferenceTargetsOrdered | research.py:159-162 | over increasing years, one conference's targets are all that conference, in strictly increasing year order |
| TargetPlan.Targets | research.py:158-163 | a (conference, year) pair is a target iff the conference is configured, the year is selected and the year is at or after the conference's first year |
| TargetPlan.TargetsConferenceMajor | research.py:158-163 | for distinct conferences and increasing years, of any two targets the earlier one's conference comes first in the list, or it is the same conference in an earlier year |
| TargetPlan.ConfiguredTargetsOrder | research.py:158-163 | the targets of any `--years` range are ICML, then NeurIPS, then ICLR, each in increasing year order |
| TargetPlan.TargetsAppend | research.py:158-163 | targets are conference-major: the targets of a list of conferences are those of its first part followed by those of the rest |
| TargetPlan.HeldBoth | research.py:158-163 | a conference held by the first of two consecutive years is scraped for both, in year order |
| TargetPlan.HeldSecond | research.py:158-163 | a conference first held in the second year is scraped for that year only |
| TargetPlan.LateThirdConference | research.py:158-163 | two conferences held from the first year and one from the second give five targets, conference-major and then in year order |
| TargetPlan.NoTargetsBefore | research.py:121-125 | a single year before 2006 selects no target |
| TargetPlan.TargetsExample | research.py:121-125 | 2017-2018 selects ICML 2017 and 2018, NeurIPS 2017 and 2018, and ICLR 2018, in that order |
| Merge.KeySet | research.py:172 | the keys (Conference, Year, Title, Author) present in a frame |
| Merge.FirstIndex | research.py:173 | the position of the first row with a key, before which no row has it |
| Merge.DedupFromCons | research.py:171-175 | one step of the scan: a row whose key was seen is dropped, otherwise it is kept and its key is marked seen |
| Merge.KeySetCons | research.py:172 | the keys of a row followed by more rows are its key and theirs |
| Merge.Dedup | research.py:171-175 | `drop_duplicates(keep="first")` on the key columns; stated by `Merge.DedupSpec` and `Merge.DedupIdempotent` |
| Merge.DedupSpec | research.py:171-175 | deduplication keeps exactly one row per key and no other key; each kept row is the first input row with its key; the result is a subsequence of the input |
| Merge.DedupIdempotent | research.py:171-175 | deduplicating twice equals deduplicating once |
| Merge.DedupFromAppend | research.py:171-175 | deduplicating a concatenation is deduplicating the first part and then the second part against the keys already seen |
| Merge.ExistingRowsWin | research.py:168-175 | with the existing rows first, they win: the result is the deduplicated existing rows followed by the new rows whose keys the existing rows lack |
| Merge.Frame.constructor | research.py:168 | the combined frame holds the given rows |
| Merge.Frame.DropDuplicates | research.py:171-175 | the in-place loop leaves the frame's rows equal to the deduplication of the old rows |
| ScrapeMode.Concat | research.py:167 | `pd.concat` has as many rows as the frames together |
| ScrapeMode.ConcatMembers | research.py:167 | a row is in the concatenation iff it is in one of the frames |
| ScrapeMode.TargetsFor | research.py:136-163 | the targets the year argument selects, or the outcome that stops the run; stated by `ScrapeMode.SingleYearTargets` and `ScrapeMode.InvalidRangeScrapesNothing` |
| ScrapeMode.ScrapeModeResult | research.py:127-179 | the outcome of a run; stated by `ScrapeMode.SavedRows`, `ScrapeMode.FailingTargetCrashes` and `ScrapeMode.NoTargetsNothingSaved` |
| ScrapeMode.RunScrapeMode | research.py:127-179 | the run ends in the specified outcome: invalid year range, a crash (`int()` failure or a failing target), nothing saved when there is no target, or the merged rows |
| ScrapeMode.InvalidRangeScrapesNothing | research.py:136-140 | a hyphenated year argument that fails the pattern scrapes nothing |
| ScrapeMode.MalformedRangeScrapesNothing | research.py:136-140 | a hyphenated year argument that does not start with digits, a hyphen and digits scrapes nothing |
| ScrapeMode.FailingTargetCrashes | research.py:164 | one failing target makes the whole run crash, so nothing is merged or written |
| ScrapeMode.SavedRows | research.py:166-177 | saved rows hold each key once, cover every key of the existing and scraped rows, are the deduplicated existing rows followed by the new rows for new keys, and form a subsequence of the combined rows |
| ScrapeMode.RescrapeChangesNothing | research.py:166-177 | merging the same scraped rows again into the file just written leaves it unchanged |
| ScrapeMode.SingleYearTargets | research.py:142-144 | a single non-negative year, written in decimal, selects the targets of that one year |
| ScrapeMode.NoTargetsNothingSaved | research.py:164-166 | when no target is selected, the gather is empty and nothing is written |
| ScrapeMode.YearBeforeAllConferences | research.py:158-166 | a single year before every conference's first year leads to no target, so nothing is written |
| EmailPattern.LastDot | research.py:256 | the last position in a span where a dot is followed by two letters |
| EmailPattern.MatchSpan | research.py:256 | a match found at a position has a non-empty local part, then the `@`, a domain part of at least one character, the dot and at least two more characters, all inside the text |
| EmailPattern.MatchSpanShape | research.py:256 | the match has the `@` and the dot where it says, and each part is in its character class: local, domain, and letters after the dot |
| EmailPattern.MatchHasAt | research.py:256 | every match contains `@` |
| EmailPattern.FirstEmailHasAt | research.py:256-259 | the first email found contains `@` |
| EmailPattern.MatchAt | research.py:256 | a match is the text at its position |
| EmailPattern.MatchShape | research.py:256 | every match is `local@domain.tld` with each part in its character class and a top-level part of at least two letters |
| EmailPattern.FirstStart | research.py:257-259 | the first match starts at the leftmost position where the pattern matches |
| EmailPattern.FirstEmail | research.py:256-259 | `found_emails[0]`; stated by `EmailPattern.FirstStart`, `EmailPattern.FirstEmailHasAt` and `EmailPattern.MatchAtAddress` |
| EmailPattern.NoAtNoEmail | research.py:256-258 | a text without `@` yields no email |
| EmailPattern.SpanOfAddress | research.py:256 | an address at the start of a text, followed by a character that cannot continue its domain, is matched part by part |
| EmailPattern.MatchAtAddress | research.py:256-259 | such an address is the first match, read back whole |
| Contacts.Query | research.py:233 | the search query; stated by `Contacts.QueryShape` and `Contacts.QueryDeterminesAffiliation` |
| Contacts.QueryShape | research.py:233 | the query starts with the author and a space, ends with " contact information", and a missing affiliation reads as an empty one |
| Contacts.QueryDeterminesAffiliation | research.py:233 | for one author, different affiliations give different queries |
| Contacts.PersonalSite | research.py:241 | the website is the first search result, present iff there are results |
| Contacts.FirstLinkedIn | research.py:244-245 | the LinkedIn profile is absent iff no result contains `linkedin.com/in`, and otherwise the first result that does |
| Contacts.Deobfuscate | research.py:262 | the two replacements; stated by `Contacts.DeobfuscateRemoves`, `Contacts.DeobfuscateIdempotent` and `Contacts.DeobfuscatePlain` |
| Contacts.DeobfuscateRemoves | research.py:262 | after the rewrite the text holds neither `' [at] '` nor `' [dot] '` |
| Contacts.DeobfuscateIdempotent | research.py:262 | rewriting a second time changes nothing |
| Contacts.DeobfuscatePlain | research.py:262 | a text without either obfuscation is left as it is |
| Text.ReplaceHead | research.py:262 | after text none of whose characters can start the pattern, `str.replace` turns the next occurrence into the replacement and goes on after it |
| Text.ReplaceSkip | research.py:262 | text none of whose characters can start the pattern passes through `str.replace` unchanged |
| Contacts.AtPass | research.py:262 | on `local [at] domain [dot] tld` followed by text without `' [at] '`, the first replacement turns only the `' [at] '` into `@` |
| Contacts.DotPass | research.py:262 | the second replacement then turns the `' [dot] '` into `.` |
| Contacts.DeobfuscateAddress | research.py:262 | the rewrite turns `local [at] domain [dot] tld` into `local@domain.tld` and leaves the text after it as it is |
| Contacts.ObfuscatedAddressFound | research.py:255-264 | a page that starts with an obfuscated address, has no `@` and no address character after it, yields the address `local@domain.tld` |
| Contacts.ObfuscatedExample | research.py:255-264 | the page "name [at] example [dot] com" yields "name@example.com" |
| Contacts.EmailOnPage | research.py:255-266 | the raw match, else the match in the rewritten text; stated by `Contacts.RawEmailFirst`, `Contacts.RewrittenEmailSecond` and `Contacts.FoundEmailHasAt` |
| Contacts.EmailFor | research.py:247-271 | the email step; stated by `Contacts.EmailNeedsPage` |
| Contacts.ContactFor | research.py:232-276 | one author's line; stated by `Contacts.AddressOnSite`, and `Contacts.GetContacts` is proved equal to it |
| Contacts.GetContacts | research.py:223-279 | the loop yields one line per author, in order, each the contact specification for that author: the search-failed message, or the shown website and LinkedIn and the lower-cased email |
| Contacts.FoundEmailHasAt | research.py:255-266 | an email found on a page always contains `@`, so it is never the default |
| Contacts.EmailNeedsPage | research.py:247-271 | the email differs from 'N/A' only when the website is truthy, its request succeeds with status 200 and the page yields that address; a failed request leaves 'N/A' |
| Contacts.RawEmailFirst | research.py:257-259 | a match in the raw text wins over anything the rewrite would reveal |
| Contacts.RewrittenEmailSecond | research.py:260-266 | without a raw match, the rewritten text decides |
| Contacts.PlainPageNoEmail | research.py:255-266 | a page with no raw match and no obfuscation yields no email |
| Contacts.DefaultPrintsLowered | research.py:273 | the default prints lower-cased, as `n/a` |
| Contacts.AddressOnSite | research.py:233-273 | when the first result's page starts with an address, that author's line carries the address, lower-cased |
| Affiliations.ModeFrom | research.py:339-341 | the scan ends on a value at least as good as its start and as every remaining value: more frequent, or as frequent and not larger |
| Affiliations.Mode | research.py:339-343 | `mode()[0]` is absent iff the series is empty; otherwise it is a most frequent value and the smallest of the most frequent ones |
| Affiliations.ModePickUnique | research.py:339-341 | exactly one value meets that promise, so ties go to the smallest value, not the first one seen |
| Affiliations.Present | research.py:339 | `dropna()` keeps exactly the present values, each as often as it occurs |
| Affiliations.ReadCell | research.py:284 | a cell is missing exactly when it holds one of the default missing-value strings of `read_csv`, "N/A" among them; otherwise its text is the value |
| Affiliations.ScrapedDefaultIsMissing | research.py:284-344 | the scraper's "N/A" reads back as missing, so an author whose rows all say "N/A" gets no affiliation |
| Affiliations.AffiliationsOf | research.py:339 | the selected column holds, in order, the affiliation of each of the author's rows, each value as often as the author has a row with it |
| Affiliations.PresentCountsRows | research.py:339-340 | the number of times a value occurs after `dropna()` is the number of the author's rows with that affiliation |
| Affiliations.RowsHaveNone | research.py:339-343 | `dropna()` leaves nothing iff none of the author's rows has an affiliation |
| Affiliations.ModeIsRowMode | research.py:339-343 | a mode of the present values is, counted over the author's rows, a most frequent affiliation and the smallest of those |
| Affiliations.MostCommonAffiliation | research.py:336-344 | an author's affiliation is None iff none of the author's rows has one; otherwise it is, counted over the author's rows, a most frequent affiliation and the smallest of the most frequent ones |
| Affiliations.MostCommonAffiliationSpec | research.py:336-344 | an author's affiliation is None iff none of the author's rows has one, and otherwise the smallest of the author's most frequent affiliations among the present values |
| Affiliations.AuthorsInfo | research.py:337-345 | the loop builds the list of `Affiliations.AuthorsInfoOf`: each top author, in order, paired with that author's most common affiliation |
| Affiliations.AuthorsInfoOfAt | research.py:337-345 | entry `i` of the list is the `i`-th name with its most common affiliation |
| Affiliations.AuthorsInfoOfPairs | research.py:337-345 | every entry of the list is its name with that name's most common affiliation |
| Affiliations.IsSchool | research.py:194-196 | the school test; stated by `Affiliations.IsSchoolIgnoresCase` and `Affiliations.KeywordMakesSchool` |
| Affiliations.IsSchoolIgnoresCase | research.py:196 | the school test ignores case |
| Affiliations.KeywordMakesSchool | research.py:194-196 | any affiliation holding a keyword, even inside a longer word, counts as a school |
| Commands.Word | research.py:302-303 | the command word is the non-whitespace text at the start of the line |
| Commands.SplitOnce | research.py:302 | `split(maxsplit=1)` gives at most two parts; none iff the text is all whitespace; the first part is a non-empty word; the second, if any, starts with a non-whitespace character |
| Commands.SplitOnceFirst | research.py:302-303 | a text starting with a non-whitespace character splits first into its leading word |
| Commands.SplitWordRest | research.py:302-304 | a word, whitespace and a rest split back into the word and the rest (or the word alone) |
| Commands.ParseCommand | research.py:297-304 | what a line reads as; stated by `Commands.ExitIffStrippedWord`, `Commands.ParsesAs` and `Commands.ParsesAlone` |
| Commands.ExitIffStrippedWord | research.py:297-359 | a line reads as `/exit` iff the first word of its stripped text is `/exit` |
| Commands.ExitIffFirstWord | research.py:297-359 | a line stops the prompt iff its first word is exactly `/exit`, whatever follows |
| Commands.DispatchKnown | research.py:306-327 | `/top`, `/from` and `/getcontacts` each hand the argument to their own parser |
| Commands.ParsesAs | research.py:301-304 | a command word, whitespace and an argument dispatch on that word with that argument |
| Commands.ParsesAlone | research.py:301-304 | a command word alone dispatches with an empty argument |
| Commands.QuitIffEnds | research.py:358-369 | the loop stops iff the input is Ctrl-C or `/exit` |
| Commands.LineEnds | research.py:297-359 | a line ends the loop iff the first word of its stripped text is `/exit` |
| Commands.EndOfInputGoesOn | research.py:367-371 | end of input is caught by the generic handler, reported as an error, and the loop goes on |
| Numbers.ParseInt | research.py:308 | `int()` on text; stated by `Numbers.ParseDigits`, `Numbers.ReadsFormatted` and `Numbers.ParseFormatted` |
| Numbers.ParseDigits | research.py:308 | an unsigned numeral parses iff it is non-empty and all ASCII digits |
| Numbers.ReadsFormatted | research.py:308 | `int()` reads back the decimal text of every integer, negative ones included |
| Numbers.ParseFormatted | research.py:308 | it does so whatever whitespace surrounds the text |
| Commands.TopLine | research.py:306-309 | `/top <n>` sets the length to n, negative numbers included |
| Commands.TopAlone | research.py:306-312 | `/top` without a number is rejected |
| Commands.FromAlone | research.py:313-316 | `/from` without an institution asks for one |
| Commands.FromQuotedArgument | research.py:313-319 | a quoted name given as the argument is looked up without its quotes |
| Commands.FromQuoted | research.py:313-319 | `/from "<name>"` selects the name without its quotes |
| Commands.GetContactsAlone | research.py:320-327 | `/getcontacts` without a count is rejected |
| Commands.CountOnly | research.py:321-324 | a count alone gives k with no institution |
| Commands.CountAndInstitution | research.py:321-324 | a count and an institution give k and the institution without surrounding quotes |
| Commands.GetContactsLine | research.py:320-324 | `/getcontacts <k>` asks for k authors from all institutions |
| Commands.GetContactsFrom | research.py:320-324 | `/getcontacts <k> "<institution>"` asks for k authors filtered by the unquoted institution |
| Commands.EmptyInstitutionMeansAll | research.py:329-332 | an institution that is empty after removing its quotes filters nothing |
| Commands.Respond | research.py:306-365 | the answer to one command; stated by `Commands.TopLine`, `Commands.GetContactsLine`, `Commands.EmptyInstitutionMeansAll` and the other command lemmas |
| Commands.ActionFor | research.py:296-371 | the answer to one input; stated by `Commands.EndOfInputGoesOn` and `Commands.QuitIffEnds` |
| Commands.Session.constructor | research.py:291 | the leaderboard length starts at 10 |
| Commands.Session.Step | research.py:296-371 | one pass of the loop body does what the specification says for that input and sets the length exactly when `/top` parsed a number |
| Commands.Session.Run | research.py:295-371 | the loop handles the inputs in order until one ends it, and ends with the length the specification gives for the inputs it read |
| Commands.Reads | research.py:297 | each input is read into one event, in order |
| Commands.Actions | research.py:295-371 | the loop answers no more inputs than it is given |
| Commands.LengthKept | research.py:306-311 | inputs other than a valid `/top` leave the length unchanged |
| Commands.LastTopWins | research.py:306-311 | the length is the number of the last valid `/top` |
| Commands.EndIgnoresRest | research.py:358-369 | nothing after `/exit` or Ctrl-C is read |
| Commands.EndIsLast | research.py:358-369 | the input that ends the loop gets the last answer, and that answer is to quit |
| Commands.NoEndReadsAll | research.py:295-371 | without `/exit` or Ctrl-C every input gets an answer and the loop never quits |

## Left out

- HTTP requests, response bodies and timeouts are not modelled. A site is an oracle giving, per URL and attempt, a document or an exception.
- HTML parsing and CSS selection are not modelled. A page arrives as the elements the source selects.
- Concurrency is not modelled: the semaphore, the parallel `gather` of paper, author and target tasks, and their interleaving. `gather` is modelled in task order, and a failure reports the error of one failing task.
- The progress bar's display is not modelled, only its two counters.
- Fetch.RetryOnServerDisconnect: does not print the client error before re-raising, because printing is output only.
- Crawl.Gather: states that a failed gather reports the error of some failing task, not which one. Python raises the first exception to occur in time, and timing is not modelled.
- The search library is an input function. Its `num_results=5` limit is the caller's concern.
- Contacts.GetContacts: the lines are modelled as values rather than printed text. The separator lines are left out as output only, and so is the unused `delay` variable.
- Python's set order for the distinct author ids is modelled as first-occurrence order. Python does not fix that order, and it decides which affiliation a name gets when two author pages with different ids carry that name and different affiliations (`Crawl.LookupOrderMatters`). `Crawl.AffiliationTableLast` and `Crawl.LookupByName` hold for the order the model picks. `Crawl.ScrapeAffiliations`, `Crawl.ScrapeAgreeingPages` and the fetch and id properties hold in any order.
- CSV reading and writing is not modelled. A missing output file is an empty list of existing rows. The missing values of `pd.read_csv` are modelled only in the analysis: an affiliation is absent for an empty cell or one of the default missing-value strings, "N/A" among them (`Affiliations.ReadCell`). In the scrape mode the existing rows are plain text, so the model does not capture that re-reading the file turns a saved "N/A" into an empty cell on the next write.
- The three leaderboards and `show_authors_from` depend on the tie order of pandas `value_counts`, which is not modelled. Their length argument is modelled, and so is the school test. A `Leaderboards` or `AuthorsFrom` action records that the listing is requested; the error path below is not modelled.
- The top-k author selection of `/getcontacts` (`value_counts().head(k)`) is not modelled for the same reason. `Affiliations.AuthorsInfo` takes the selected names as input.
- `str.contains` reads the institution filter as a regular expression, so the filtered rows are not modelled. The action records the filter. An institution that is not a valid regular expression (`/from C++`) makes `str.contains` raise, and the generic handler reports an error; the model answers with the `AuthorsFrom` or `Contacts` action instead.
- Commands.Respond: does not model the error when no Affiliation cell holds text (every cell empty or a missing-value string such as "N/A"). `read_csv` then gives a float column, and `.str.contains` (research.py:196, 212, 330) raises AttributeError. So `/show`, `/top n`, `/from x` and `/getcontacts k x` all end in "An error occurred" (research.py:370-371), and `/top n` has already set the length. The model answers with `Leaderboards`, `AuthorsFrom` or `Contacts` instead.
- The email regex is modelled by its leftmost-match behaviour. Only the first match `findall` returns is modelled, not the later ones.
- Whitespace is Python's full `str.isspace` set, but digits and letter cases are ASCII. `\d` and `int()` also accept Unicode digits, `int()` accepts underscores between digits, and `str.lower` lower-cases non-ASCII letters. Those inputs are not modelled.
- `os.system('clear')`, `input()`'s prompt and all printed messages are left out. Each command's effect is an `Action` value.
- The retry and contact delays are not modelled, because both are commented out in the source.
- `analyze_mode` returns early when the CSV file is missing. That path is not modelled, because no loop state exists yet.
- The `main` function and `argparse` are not modelled. The year argument arrives as text.
- Commands.Session.Run: end of input is caught by the generic handler and the loop goes on. Given endless end of input, the source never stops. The model reads a finite list of inputs.
