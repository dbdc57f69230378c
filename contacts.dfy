/** `get_contacts`: one web search per author, the website and LinkedIn picks
    among its results, and the email scraped from the website. */
module Contacts {
  import opened Wrappers
  import opened Text
  import opened Fetch
  import opened EmailPattern

  /** `f'{author} {affiliation or ""} contact information'`. */
  function Query(author: string, affiliation: Option<string>): string {
    author + " " + affiliation.GetOr("") + " contact information"
  }

  const QuerySuffix := " contact information"

  /** The query starts with the author and a space, ends with the fixed suffix,
      and a missing affiliation reads like an empty one. */
  lemma QueryShape(author: string, affiliation: Option<string>)
    ensures |author| + 1 + |QuerySuffix| <= |Query(author, affiliation)|
    ensures Query(author, affiliation)[..|author| + 1] == author + " "
    ensures Query(author, affiliation)[|Query(author, affiliation)| - |QuerySuffix|..] == QuerySuffix
    ensures Query(author, None) == Query(author, Some(""))
  {
    var q := Query(author, affiliation);
    assert q == (author + " ") + (affiliation.GetOr("") + QuerySuffix);
  }

  /** For one author, the affiliation can be read back from the query. */
  lemma QueryDeterminesAffiliation(author: string, a: string, b: string)
    requires Query(author, Some(a)) == Query(author, Some(b))
    ensures a == b
  {
    var qa, qb := Query(author, Some(a)), Query(author, Some(b));
    var n := |author| + 1;
    assert |a| == |b|;
    assert a == qa[n..n + |a|];
    assert b == qb[n..n + |b|];
  }

  /** `search_results[0] if search_results else None`. */
  function PersonalSite(results: seq<string>): (r: Option<string>)
    ensures r.Some? <==> results != []
    ensures r.Some? ==> r.value == results[0]
  {
    if results == [] then None else Some(results[0])
  }

  /** Python truthiness of the site: present and not the empty string. */
  predicate Truthy(site: Option<string>) {
    site.Some? && site.value != ""
  }

  /** What a printed field shows: the value, or "N/A" when it is falsy. */
  function Shown(field: Option<string>): string {
    if Truthy(field) then field.value else "N/A"
  }

  const LinkedInMarker := "linkedin.com/in"

  /** `linkedin_results[0]` of `[r for r in search_results if "linkedin.com/in" in r]`. */
  function FirstLinkedIn(results: seq<string>): (r: Option<string>)
    ensures r.None? <==> forall i :: 0 <= i < |results| ==> !Contains(results[i], LinkedInMarker)
    ensures r.Some? ==> exists i :: 0 <= i < |results| && results[i] == r.value
                          && Contains(results[i], LinkedInMarker)
                          && forall j :: 0 <= j < i ==> !Contains(results[j], LinkedInMarker)
    decreases |results|
  {
    if results == [] then None
    else if Contains(results[0], LinkedInMarker) then Some(results[0])
    else
      var rest := FirstLinkedIn(results[1..]);
      assert forall i :: 1 <= i < |results| ==> results[i] == results[1..][i - 1];
      if rest.Some? then
        var i :| 0 <= i < |results[1..]| && results[1..][i] == rest.value
                 && Contains(results[1..][i], LinkedInMarker)
                 && forall j :: 0 <= j < i ==> !Contains(results[1..][j], LinkedInMarker);
        assert results[i + 1] == rest.value;
        rest
      else rest
  }

  /** `text.replace(' [at] ', '@').replace(' [dot] ', '.')`. */
  function Deobfuscate(text: string): string {
    ReplaceAll(ReplaceAll(text, " [at] ", "@"), " [dot] ", ".")
  }

  /** The rewritten text holds neither obfuscation. */
  lemma DeobfuscateRemoves(text: string)
    ensures !Contains(Deobfuscate(text), " [at] ")
    ensures !Contains(Deobfuscate(text), " [dot] ")
  {
    var once := ReplaceAll(text, " [at] ", "@");
    ReplaceRemovesPattern(text, " [at] ", "@");
    ReplaceRemovesPattern(once, " [dot] ", ".");
    if Contains(Deobfuscate(text), " [at] ") {
      ReplaceCreatesNothing(once, " [dot] ", ".", " [at] ");
      assert false;
    }
  }

  /** Rewriting a second time changes nothing. */
  lemma DeobfuscateIdempotent(text: string)
    ensures Deobfuscate(Deobfuscate(text)) == Deobfuscate(text)
  {
    var t := Deobfuscate(text);
    DeobfuscateRemoves(text);
    ReplaceAbsent(t, " [at] ", "@");
    ReplaceAbsent(t, " [dot] ", ".");
  }

  /** A text without either obfuscation is left as it is. */
  lemma DeobfuscatePlain(text: string)
    requires !Contains(text, " [at] ") && !Contains(text, " [dot] ")
    ensures Deobfuscate(text) == text
  {
    ReplaceAbsent(text, " [at] ", "@");
    ReplaceAbsent(text, " [dot] ", ".");
  }

  /** A space followed by a top-level domain holds no `' [at] '` to replace. */
  lemma AtSkipsSpacedTld(tld: string, rest: string)
    requires |tld| > 0 && AllIn(tld, Letter)
    requires !Contains(rest, " [at] ")
    ensures ReplaceAll(" " + (tld + rest), " [at] ", "@") == " " + (tld + rest)
  {
    var at := " [at] ";
    var y := tld + rest;
    ReplaceAbsent(rest, at, "@");
    ReplaceSkip(tld, rest, at, "@");
    if |y| + 1 >= |at| {
      assert In(tld[0], Letter);
      assert ([' '] + y)[..|at|][1] == tld[0] != at[1];
    }
    ReplaceStep(' ', y, at, "@");
    assert " " + y == [' '] + y;
  }

  /** The first pass leaves `' [dot] '` and what follows alone. */
  lemma AtPassTail(tld: string, rest: string)
    requires |tld| > 0 && AllIn(tld, Letter)
    requires !Contains(rest, " [at] ")
    ensures ReplaceAll(" [dot] " + (tld + rest), " [at] ", "@") == " [dot] " + (tld + rest)
  {
    var at := " [at] ";
    var y := tld + rest;
    var c := "[dot]" + (" " + y);
    assert ([' '] + c)[..|at|][2] != at[2];
    ReplaceStepSkip(' ', "[dot]", " " + y, at, "@");
    AtSkipsSpacedTld(tld, rest);
    assert " [dot] " + y == [' '] + c == [' '] + ("[dot]" + (" " + y));
  }

  /** The first pass turns `' [at] '` into `'@'` and leaves `' [dot] '` alone. */
  lemma AtPass(local: string, domain: string, tld: string, rest: string)
    requires EmailShaped(local, domain, tld)
    requires !Contains(rest, " [at] ")
    ensures ReplaceAll(local + " [at] " + domain + " [dot] " + tld + rest, " [at] ", "@")
         == local + "@" + domain + " [dot] " + tld + rest
  {
    var at := " [at] ";
    var c := " [dot] " + (tld + rest);
    AtPassTail(tld, rest);
    ReplaceSkip(domain, c, at, "@");
    ReplaceHead(local, domain + c, at, "@");
    AppendRegroup(local, at, domain, " [dot] ", tld, rest);
    AppendRegroup(local, "@", domain, " [dot] ", tld, rest);
  }

  /** The second pass turns `' [dot] '` into `'.'`. */
  lemma DotPass(local: string, domain: string, tld: string, rest: string)
    requires EmailShaped(local, domain, tld)
    requires !Contains(rest, " [dot] ")
    ensures ReplaceAll(local + "@" + domain + " [dot] " + tld + rest, " [dot] ", ".")
         == local + "@" + domain + "." + tld + rest
  {
    var dot := " [dot] ";
    var u := local + "@" + domain;
    ReplaceAbsent(rest, dot, ".");
    ReplaceSkip(tld, rest, dot, ".");
    ReplaceHead(u, tld + rest, dot, ".");
    AppendAssoc(u + dot, tld, rest);
    AppendAssoc(u + ".", tld, rest);
  }

  /** An address written as `local [at] domain [dot] tld` is rewritten to
      `local@domain.tld`. */
  lemma DeobfuscateAddress(local: string, domain: string, tld: string, rest: string)
    requires EmailShaped(local, domain, tld)
    requires !Contains(rest, " [at] ") && !Contains(rest, " [dot] ")
    ensures Deobfuscate(local + " [at] " + domain + " [dot] " + tld + rest)
         == local + "@" + domain + "." + tld + rest
  {
    AtPass(local, domain, tld, rest);
    DotPass(local, domain, tld, rest);
  }

  /** A page that holds an address only in its obfuscated form, followed by text
      that cannot continue the domain, yields the address. */
  lemma ObfuscatedAddressFound(local: string, domain: string, tld: string, rest: string)
    requires EmailShaped(local, domain, tld)
    requires !Contains(rest, " [at] ") && !Contains(rest, " [dot] ")
    requires '@' !in rest
    requires rest == [] || !In(rest[0], Domain)
    ensures EmailOnPage(local + " [at] " + domain + " [dot] " + tld + rest)
         == Some(local + "@" + domain + "." + tld)
  {
    var text := local + " [at] " + domain + " [dot] " + tld + rest;
    forall i | 0 <= i < |text|
      ensures text[i] != '@'
    {
      var n0 := |local|;
      var n1 := n0 + 6 + |domain|;
      var n2 := n1 + 7 + |tld|;
      if i < n0 {
        assert text[i] == local[i] && In(local[i], Local);
      } else if i < n0 + 6 {
      } else if i < n1 {
        assert text[i] == domain[i - n0 - 6] && In(domain[i - n0 - 6], Domain);
      } else if i < n1 + 7 {
      } else if i < n2 {
        assert text[i] == tld[i - n1 - 7] && In(tld[i - n1 - 7], Letter);
      } else {
        assert text[i] == rest[i - n2];
      }
    }
    NoAtNoEmail(text);
    DeobfuscateAddress(local, domain, tld, rest);
    MatchAtAddress(local, domain, tld, rest);
  }

  /** For example, "name [at] example [dot] com" yields "name@example.com". */
  lemma ObfuscatedExample()
    ensures EmailOnPage("name [at] example [dot] com") == Some("name@example.com")
  {
    assert EmailShaped("name", "example", "com");
    assert "name" + " [at] " + "example" + " [dot] " + "com" + "" == "name [at] example [dot] com";
    assert "name" + "@" + "example" + "." + "com" == "name@example.com";
    ObfuscatedAddressFound("name", "example", "com", "");
  }

  /** The page the website request returns. */
  datatype Response = Response(status: int, text: string)

  /** The email read from a fetched page: the first raw match, else the first
      match in the rewritten text. */
  function EmailOnPage(text: string): Option<string> {
    match FirstEmail(text)
    case Some(e) => Some(e)
    case None => FirstEmail(Deobfuscate(text))
  }

  /** `email` after the website step: 'N/A' unless the site is truthy, the
      request succeeds with status 200 and the page holds an address. Any error
      of the request is swallowed. */
  function EmailFor(site: Option<string>, fetch: string -> Result<Response, Error>): string {
    if !Truthy(site) then "N/A"
    else
      match fetch(site.value)
      case Err(_) => "N/A"
      case Ok(response) =>
        if response.status != 200 then "N/A"
        else
          match EmailOnPage(response.text)
          case Some(e) => e
          case None => "N/A"
  }

  /** What is printed for one author: the three fields, with the email
      lower-cased, or the message for a failed search. */
  datatype ContactLine =
    | Contact(author: string, website: string, linkedin: string, email: string)
    | SearchFailed(author: string)

  /** The search library is an input: the results for a query, or None where
      the search raises. */
  function ContactFor(author: string, affiliation: Option<string>,
                      search: string -> Option<seq<string>>,
                      fetch: string -> Result<Response, Error>): ContactLine
  {
    match search(Query(author, affiliation))
    case None => SearchFailed(author)
    case Some(results) =>
      var site := PersonalSite(results);
      Contact(author, Shown(site), Shown(FirstLinkedIn(results)), Lower(EmailFor(site, fetch)))
  }

  /** The `get_contacts` loop: authors in order, one line each. */
  method GetContacts(authors: seq<(string, Option<string>)>,
                     search: string -> Option<seq<string>>,
                     fetch: string -> Result<Response, Error>)
    returns (lines: seq<ContactLine>)
    ensures |lines| == |authors|
    ensures forall i :: 0 <= i < |authors| ==> lines[i] == ContactFor(authors[i].0, authors[i].1, search, fetch)
  {
    lines := [];
    var i := 0;
    while i < |authors|
      invariant 0 <= i <= |authors| && |lines| == i
      invariant forall j :: 0 <= j < i ==> lines[j] == ContactFor(authors[j].0, authors[j].1, search, fetch)
    {
      var (author, affiliation) := authors[i];
      var found := search(Query(author, affiliation));
      if found.None? {
        lines := lines + [SearchFailed(author)];
      } else {
        var results := found.value;
        var site := PersonalSite(results);
        var linkedin := FirstLinkedIn(results);
        var email := "N/A";
        if Truthy(site) {
          var fetched := fetch(site.value);
          if fetched.Ok? && fetched.value.status == 200 {
            var text := fetched.value.text;
            var raw := FirstEmail(text);
            if raw.Some? {
              email := raw.value;
            } else {
              var rewritten := FirstEmail(Deobfuscate(text));
              if rewritten.Some? {
                email := rewritten.value;
              }
            }
          }
        }
        lines := lines + [Contact(author, Shown(site), Shown(linkedin), Lower(email))];
      }
      i := i + 1;
    }
  }

  /** A found address always has an '@', so it is never the default. */
  lemma FoundEmailHasAt(text: string)
    requires EmailOnPage(text).Some?
    ensures '@' in EmailOnPage(text).value
  {
    if FirstEmail(text).Some? {
      FirstEmailHasAt(text);
    } else {
      FirstEmailHasAt(Deobfuscate(text));
    }
  }

  /** The email is not the default only when the site is truthy and answered
      with status 200; a failed request leaves the default. */
  lemma EmailNeedsPage(site: Option<string>, fetch: string -> Result<Response, Error>)
    ensures EmailFor(site, fetch) != "N/A" ==>
      Truthy(site) && fetch(site.value).Ok? && fetch(site.value).value.status == 200
      && EmailOnPage(fetch(site.value).value.text) == Some(EmailFor(site, fetch))
    ensures Truthy(site) && fetch(site.value).Err? ==> EmailFor(site, fetch) == "N/A"
  {
    if EmailFor(site, fetch) != "N/A" {
      assert Truthy(site) && fetch(site.value).Ok? && fetch(site.value).value.status == 200;
    }
  }

  /** A raw match wins over anything the rewrite would reveal. */
  lemma RawEmailFirst(text: string, e: string)
    requires FirstEmail(text) == Some(e)
    ensures EmailOnPage(text) == Some(e)
  {
  }

  /** Without a raw match, the rewritten text decides. */
  lemma RewrittenEmailSecond(text: string)
    requires FirstEmail(text) == None
    ensures EmailOnPage(text) == FirstEmail(Deobfuscate(text))
  {
  }

  /** A page with no raw match and no obfuscation has no email. */
  lemma PlainPageNoEmail(text: string)
    requires FirstEmail(text) == None
    requires !Contains(text, " [at] ") && !Contains(text, " [dot] ")
    ensures EmailOnPage(text) == None
  {
    DeobfuscatePlain(text);
  }

  /** The printed default is lower-cased too: "n/a". */
  lemma DefaultPrintsLowered(site: Option<string>, fetch: string -> Result<Response, Error>)
    requires EmailFor(site, fetch) == "N/A"
    ensures Lower(EmailFor(site, fetch)) == "n/a"
  {
    var l := Lower("N/A");
    assert l[0] == 'n' && l[1] == '/' && l[2] == 'a';
  }

  /** A website whose page starts with an address (followed by a character that
      cannot continue its domain) yields that address, lower-cased. */
  lemma AddressOnSite(author: string, affiliation: Option<string>,
                      search: string -> Option<seq<string>>,
                      fetch: string -> Result<Response, Error>,
                      local: string, domain: string, tld: string, rest: string)
    requires EmailShaped(local, domain, tld)
    requires rest == [] || !In(rest[0], Domain)
    requires search(Query(author, affiliation)).Some?
    requires var results := search(Query(author, affiliation)).value;
      results != [] && results[0] != ""
      && fetch(results[0]) == Ok(Response(200, local + "@" + domain + "." + tld + rest))
    ensures ContactFor(author, affiliation, search, fetch).Contact?
    ensures ContactFor(author, affiliation, search, fetch).email == Lower(local + "@" + domain + "." + tld)
  {
    MatchAtAddress(local, domain, tld, rest);
  }
}
