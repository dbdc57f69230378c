/** The affiliation helpers of the analysis mode: the most common affiliation of
    an author (`dropna().mode()[0]`) and the school keyword test of the
    institution leaderboard. */
module Affiliations {
  import opened Wrappers
  import opened Text

  /** Python's `a <= b` on `str`: code point by code point. */
  predicate LexLe(a: string, b: string)
    decreases |a|
  {
    a == [] || (b != [] && (a[0] < b[0] || (a[0] == b[0] && LexLe(a[1..], b[1..]))))
  }

  lemma {:induction false} LexLeTotal(a: string, b: string)
    ensures LexLe(a, b) || LexLe(b, a)
    decreases |a|
  {
    if a != [] && b != [] && a[0] == b[0] {
      LexLeTotal(a[1..], b[1..]);
    }
  }

  lemma {:induction false} LexLeAntisymmetric(a: string, b: string)
    requires LexLe(a, b) && LexLe(b, a)
    ensures a == b
    decreases |a|
  {
    if a != [] {
      LexLeAntisymmetric(a[1..], b[1..]);
      assert a == [a[0]] + a[1..] && b == [b[0]] + b[1..];
    }
  }

  lemma {:induction false} LexLeTransitive(a: string, b: string, c: string)
    requires LexLe(a, b) && LexLe(b, c)
    ensures LexLe(a, c)
    decreases |a|
  {
    if a != [] && a[0] == b[0] && b[0] == c[0] {
      LexLeTransitive(a[1..], b[1..], c[1..]);
    }
  }

  /** How often `v` occurs in `xs`. */
  function Count(xs: seq<string>, v: string): nat {
    multiset(xs)[v]
  }

  /** `a` is at least as good a mode as `b`: more frequent, or as frequent and
      not larger. */
  predicate AtLeastAsGood(xs: seq<string>, a: string, b: string) {
    Count(xs, a) > Count(xs, b) || (Count(xs, a) == Count(xs, b) && LexLe(a, b))
  }

  /** What `mode()[0]` promises: a most frequent value, the smallest among the
      most frequent ones. */
  predicate IsModePick(xs: seq<string>, m: string) {
    m in xs && forall y :: y in xs ==> AtLeastAsGood(xs, m, y)
  }

  lemma AtLeastAsGoodTransitive(xs: seq<string>, a: string, b: string, c: string)
    requires AtLeastAsGood(xs, a, b) && AtLeastAsGood(xs, b, c)
    ensures AtLeastAsGood(xs, a, c)
  {
    if Count(xs, a) == Count(xs, b) && Count(xs, b) == Count(xs, c) {
      LexLeTransitive(a, b, c);
    }
  }

  /** The scan over the remaining values, keeping the best seen so far. */
  function ModeFrom(xs: seq<string>, rest: seq<string>, best: string): (r: string)
    ensures r == best || r in rest
    ensures AtLeastAsGood(xs, r, best)
    ensures forall y :: y in rest ==> AtLeastAsGood(xs, r, y)
    decreases |rest|
  {
    if rest == [] then
      assert LexLe(best, best) by { LexLeTotal(best, best); }
      best
    else
      var y := rest[0];
      var next := if Count(xs, y) > Count(xs, best) || (Count(xs, y) == Count(xs, best) && y != best && LexLe(y, best)) then y else best;
      assert AtLeastAsGood(xs, next, best) && AtLeastAsGood(xs, next, y) by {
        LexLeTotal(y, best);
        LexLeTotal(best, best);
        LexLeTotal(y, y);
      }
      var r := ModeFrom(xs, rest[1..], next);
      assert forall z :: z in rest ==> z == y || z in rest[1..];
      AtLeastAsGoodTransitive(xs, r, next, best);
      AtLeastAsGoodTransitive(xs, r, next, y);
      r
  }

  /** `Series(values).mode()[0]`, None where the series is empty (`mode()` is
      then empty). */
  function Mode(xs: seq<string>): (r: Option<string>)
    ensures r.None? <==> xs == []
    ensures r.Some? ==> IsModePick(xs, r.value)
  {
    if xs == [] then None
    else
      var m := ModeFrom(xs, xs[1..], xs[0]);
      assert forall y :: y in xs ==> y == xs[0] || y in xs[1..];
      Some(m)
  }

  /** Only one value meets the promise: a tie between equally frequent values
      goes to the smaller one, not to the one seen first. */
  lemma ModePickUnique(xs: seq<string>, m: string, n: string)
    requires IsModePick(xs, m) && IsModePick(xs, n)
    ensures m == n
  {
    assert AtLeastAsGood(xs, m, n) && AtLeastAsGood(xs, n, m);
    LexLeAntisymmetric(m, n);
  }

  /** `dropna()`: the affiliations that are present, in order. */
  function Present(affiliations: seq<Option<string>>): (r: seq<string>)
    ensures forall v :: v in r <==> Some(v) in affiliations
    ensures forall v :: Count(r, v) == multiset(affiliations)[Some(v)]
    decreases |affiliations|
  {
    if affiliations == [] then []
    else
      var rest := Present(affiliations[1..]);
      assert affiliations == [affiliations[0]] + affiliations[1..];
      assert forall a :: a in affiliations <==> a == affiliations[0] || a in affiliations[1..];
      if affiliations[0].Some? then [affiliations[0].value] + rest else rest
  }

  /** The cell texts `pd.read_csv` reads as missing by default (pandas 2): the
      empty cell, "N/A" (the scraper's own default), "NA", "null", "None",
      "nan" and the other spellings of a missing value. */
  const DefaultNaValues: set<string> := {
    "", "#N/A", "#N/A N/A", "#NA", "-1.#IND", "-1.#QNAN", "-NaN", "-nan", "1.#IND",
    "1.#QNAN", "<NA>", "N/A", "NA", "NULL", "NaN", "None", "n/a", "nan", "null"}

  /** One Affiliation cell as `read_csv` gives it: None for a missing value,
      otherwise the text of the cell. */
  function ReadCell(cell: string): (r: Option<string>)
    ensures r.None? <==> cell in DefaultNaValues
    ensures r.Some? ==> r.value == cell
  {
    if cell in DefaultNaValues then None else Some(cell)
  }

  /** One row of the (filtered) frame: its author and its affiliation, None
      where the CSV cell holds a missing value (see `ReadCell`). */
  datatype AuthorRow = AuthorRow(author: string, affiliation: Option<string>)

  /** `authors_df[authors_df['Author'] == name]['Affiliation']`: each
      affiliation as often as the author has a row with it. */
  function AffiliationsOf(rows: seq<AuthorRow>, name: string): (r: seq<Option<string>>)
    ensures |r| <= |rows|
    ensures forall a :: a in r ==> exists i :: 0 <= i < |rows| && rows[i].author == name && rows[i].affiliation == a
    ensures forall a :: multiset(r)[a] == multiset(rows)[AuthorRow(name, a)]
    decreases |rows|
  {
    if rows == [] then []
    else
      var rest := AffiliationsOf(rows[1..], name);
      assert rows == [rows[0]] + rows[1..];
      if rows[0].author == name then [rows[0].affiliation] + rest else rest
  }

  /** How many of `name`'s rows have affiliation `v`. */
  function RowCount(rows: seq<AuthorRow>, name: string, v: string): nat {
    multiset(rows)[AuthorRow(name, Some(v))]
  }

  /** `m` is a most frequent affiliation among `name`'s rows, the smallest
      among the most frequent ones. */
  ghost predicate IsRowModePick(rows: seq<AuthorRow>, name: string, m: string) {
    RowCount(rows, name, m) > 0
    && forall v :: RowCount(rows, name, v) < RowCount(rows, name, m)
                   || (RowCount(rows, name, v) == RowCount(rows, name, m) && LexLe(m, v))
  }

  /** The present affiliations of `name` count exactly the author's rows. */
  lemma PresentCountsRows(rows: seq<AuthorRow>, name: string, v: string)
    ensures Count(Present(AffiliationsOf(rows, name)), v) == RowCount(rows, name, v)
  {
  }

  /** The affiliation `get_contacts` is given for `name`: None exactly when
      none of the author's rows has one, otherwise the smallest of the most
      frequent affiliations of those rows. */
  function MostCommonAffiliation(rows: seq<AuthorRow>, name: string): (r: Option<string>)
    ensures r.None? <==> forall i :: 0 <= i < |rows| && rows[i].author == name ==> rows[i].affiliation.None?
    ensures r.Some? ==> IsRowModePick(rows, name, r.value)
  {
    var present := Present(AffiliationsOf(rows, name));
    RowsHaveNone(rows, name);
    if present == [] then None
    else
      var m := Mode(present).value;
      ModeIsRowMode(rows, name, m);
      Some(m)
  }

  /** The author has no present affiliation exactly when none of the author's rows has one. */
  lemma RowsHaveNone(rows: seq<AuthorRow>, name: string)
    ensures Present(AffiliationsOf(rows, name)) == [] <==>
            forall i :: 0 <= i < |rows| && rows[i].author == name ==> rows[i].affiliation.None?
  {
    var present := Present(AffiliationsOf(rows, name));
    if present != [] {
      var v := present[0];
      PresentCountsRows(rows, name, v);
      assert Count(present, v) > 0;
      assert AuthorRow(name, Some(v)) in rows;
    }
  }

  /** The mode of the present affiliations is the mode of the author's rows. */
  lemma ModeIsRowMode(rows: seq<AuthorRow>, name: string, m: string)
    requires IsModePick(Present(AffiliationsOf(rows, name)), m)
    ensures IsRowModePick(rows, name, m)
  {
    var present := Present(AffiliationsOf(rows, name));
    PresentCountsRows(rows, name, m);
    forall v
      ensures RowCount(rows, name, v) < RowCount(rows, name, m)
              || (RowCount(rows, name, v) == RowCount(rows, name, m) && LexLe(m, v))
    {
      PresentCountsRows(rows, name, v);
      if v in present {
        assert AtLeastAsGood(present, m, v);
      }
    }
  }

  /** The `authors_info` list for `names`, built one name at a time: each
      name with the first mode of its present affiliations, if any. */
  function AuthorsInfoOf(rows: seq<AuthorRow>, names: seq<string>): (r: seq<(string, Option<string>)>)
    ensures |r| == |names|
    decreases |names|
  {
    if names == [] then []
    else
      var last := names[|names| - 1];
      AuthorsInfoOf(rows, names[..|names| - 1]) + [(last, Mode(Present(AffiliationsOf(rows, last))))]
  }

  /** Entry `i` of the list pairs the `i`-th name with its most common affiliation. */
  lemma {:induction false} AuthorsInfoOfAt(rows: seq<AuthorRow>, names: seq<string>, i: nat)
    requires i < |names|
    ensures AuthorsInfoOf(rows, names)[i] == (names[i], MostCommonAffiliation(rows, names[i]))
    decreases |names|
  {
    if i < |names| - 1 {
      var init := names[..|names| - 1];
      AuthorsInfoOfAt(rows, init, i);
      assert init[i] == names[i];
    }
  }

  /** The list pairs each top author, in order, with that author's most
      common affiliation. */
  lemma AuthorsInfoOfPairs(rows: seq<AuthorRow>, names: seq<string>)
    ensures forall i :: 0 <= i < |names| ==> AuthorsInfoOf(rows, names)[i] == (names[i], MostCommonAffiliation(rows, names[i]))
  {
    forall i | 0 <= i < |names|
      ensures AuthorsInfoOf(rows, names)[i] == (names[i], MostCommonAffiliation(rows, names[i]))
    {
      AuthorsInfoOfAt(rows, names, i);
    }
  }

  /** The `authors_info` loop over the top author names. */
  method AuthorsInfo(rows: seq<AuthorRow>, names: seq<string>) returns (info: seq<(string, Option<string>)>)
    ensures info == AuthorsInfoOf(rows, names)
    ensures |info| == |names|
    ensures forall i :: 0 <= i < |names| ==> info[i] == (names[i], MostCommonAffiliation(rows, names[i]))
  {
    info := [];
    for i := 0 to |names|
      invariant info == AuthorsInfoOf(rows, names[..i])
    {
      // `dropna().mode()`, then its first value, or None when it is empty
      var affiliation := Mode(Present(AffiliationsOf(rows, names[i])));
      assert names[..i + 1][..i] == names[..i];
      info := info + [(names[i], affiliation)];
    }
    assert names[..|names|] == names;
    AuthorsInfoOfPairs(rows, names);
  }

  /** An author's affiliation is None exactly when none of the author's rows
      has one; otherwise it is the smallest of the most frequent ones. */
  lemma MostCommonAffiliationSpec(rows: seq<AuthorRow>, name: string)
    ensures MostCommonAffiliation(rows, name).None? <==> forall v :: Some(v) !in AffiliationsOf(rows, name)
    ensures MostCommonAffiliation(rows, name).None? <==>
              forall i :: 0 <= i < |rows| && rows[i].author == name ==> rows[i].affiliation.None?
    ensures MostCommonAffiliation(rows, name).Some? ==>
              IsModePick(Present(AffiliationsOf(rows, name)), MostCommonAffiliation(rows, name).value)
  {
    var present := Present(AffiliationsOf(rows, name));
    if present != [] {
      assert present[0] in present;
    }
  }

  /** The scraper writes "N/A" for an author without a page, and the analysis
      reads that back as missing: an author whose rows all say "N/A" gets no
      affiliation, not "N/A". */
  lemma ScrapedDefaultIsMissing(rows: seq<AuthorRow>, name: string)
    requires forall i :: 0 <= i < |rows| && rows[i].author == name ==> rows[i].affiliation == ReadCell("N/A")
    ensures ReadCell("N/A") == None
    ensures MostCommonAffiliation(rows, name) == None
  {
    MostCommonAffiliationSpec(rows, name);
  }

  const SchoolKeywords: seq<string> := ["university", "college", "school", "institute", "polytechnic", "eth", "epfl"]

  /** Some keyword of `keywords` occurs in `text`. */
  predicate MentionsAny(text: string, keywords: seq<string>) {
    exists k :: 0 <= k < |keywords| && Contains(text, keywords[k])
  }

  /** `str.contains('university|college|…', case=False, na=False)`: a missing
      affiliation is no school, and the keywords match anywhere, in any case. */
  predicate IsSchool(affiliation: Option<string>) {
    affiliation.Some? && MentionsAny(Lower(affiliation.value), SchoolKeywords)
  }

  /** The test ignores case. */
  lemma IsSchoolIgnoresCase(s: string)
    ensures IsSchool(Some(Lower(s))) == IsSchool(Some(s))
  {
    LowerIdempotent(s);
  }

  /** Lower-casing distributes over concatenation. */
  lemma LowerAppend(a: string, b: string)
    ensures Lower(a + b) == Lower(a) + Lower(b)
  {
    assert forall i :: 0 <= i < |a| ==> (a + b)[i] == a[i];
    assert forall i :: |a| <= i < |a| + |b| ==> (a + b)[i] == b[i - |a|];
  }

  /** A sub-text is found after any prefix. */
  lemma {:induction false} ContainsInMiddle(pre: string, sub: string, post: string)
    ensures Contains(pre + sub + post, sub)
    decreases |pre|
  {
    var s := pre + sub + post;
    assert s[|pre|..][..|sub|] == sub;
    ContainsInSuffix(s, |pre|, sub);
  }

  /** Any text holding a keyword is a school, even inside a longer word: "eth"
      makes "Bethesda" count. */
  lemma KeywordMakesSchool(pre: string, k: nat, post: string)
    requires k < |SchoolKeywords|
    ensures IsSchool(Some(pre + SchoolKeywords[k] + post))
  {
    var kw := SchoolKeywords[k];
    assert Lower(kw) == kw by {
      assert forall i :: 0 <= i < |kw| ==> !('A' <= kw[i] <= 'Z');
    }
    LowerAppend(pre + kw, post);
    LowerAppend(pre, kw);
    ContainsInMiddle(Lower(pre), kw, Lower(post));
  }
}
