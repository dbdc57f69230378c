/** The `--years` argument: "A-B" or a single year. */
module YearArgs {
  import opened Wrappers
  import opened Text
  import opened Numbers

  /** How the year argument is read: an inclusive range, the "Invalid year range"
      message (nothing is scraped), or the ValueError `int(years)` raises. */
  datatype Years = Range(start: int, end: int) | InvalidRange | NotAnInteger

  /** A text with a hyphen must start with `^(\d+)-(\d+)` (anything may follow);
      a text without one goes through `int()`. */
  function ParseYears(years: string): (r: Years)
    ensures r.InvalidRange? ==> Contains(years, "-")
    ensures r.NotAnInteger? ==> !Contains(years, "-")
  {
    if Contains(years, "-") then MatchRange(years)
    else
      match ParseInt(years)
      case Some(y) => Range(y, y)
      case None => NotAnInteger
  }

  /** `re.match(r"^(\d+)-(\d+)", years)`: `\d+` cannot match the hyphen that
      follows it, so each group is the longest digit run at its position. */
  function MatchRange(years: string): (r: Years)
    ensures !r.NotAnInteger?
    ensures r.Range? ==> 0 <= r.start && 0 <= r.end
  {
    var a := DigitPrefix(years);
    if |a| > 0 && |a| < |years| && years[|a|] == '-' then
      var b := DigitPrefix(years[|a| + 1..]);
      if |b| > 0 then Range(DigitsValue(a), DigitsValue(b)) else InvalidRange
    else InvalidRange
  }

  lemma {:induction false} NoHyphen(s: string)
    requires forall k :: 0 <= k < |s| ==> s[k] != '-'
    ensures !Contains(s, "-")
    decreases |s|
  {
    if |s| > 0 {
      assert s[..1][0] == s[0];
      NoHyphen(s[1..]);
    }
  }

  lemma HyphenAfter(da: string, db: string, rest: string)
    ensures Contains(da + "-" + db + rest, "-")
  {
    var tail := "-" + db + rest;
    var s := da + tail;
    assert s == da + "-" + db + rest;
    assert tail[..1] == "-";
    assert s[|da|..] == tail;
    ContainsInSuffix(s, |da|, "-");
  }

  /** Where the hyphen and the second group sit in "A-B…". */
  lemma RangeShape(da: string, db: string, rest: string)
    ensures var s := da + "-" + db + rest;
      |da| < |s| && s[|da|] == '-' && s[|da| + 1..] == db + rest
  {
    var s := da + "-" + db + rest;
    assert s == da + ("-" + (db + rest));
  }

  lemma MatchDigitRange(da: string, db: string, rest: string)
    requires |da| > 0 && AllDigits(da) && |db| > 0 && AllDigits(db)
    requires rest == [] || !IsDigit(rest[0])
    ensures MatchRange(da + "-" + db + rest) == Range(DigitsValue(da), DigitsValue(db))
  {
    var s := da + "-" + db + rest;
    AppendAssoc(da + "-", db, rest);
    AppendAssoc(da, "-", db + rest);
    AppendAssoc("-", db, rest);
    DigitPrefixOf(da, "-" + db + rest);
    RangeShape(da, db, rest);
    DigitPrefixOf(db, rest);
  }

  lemma ParseDigitRange(da: string, db: string, rest: string)
    requires |da| > 0 && AllDigits(da) && |db| > 0 && AllDigits(db)
    requires rest == [] || !IsDigit(rest[0])
    ensures ParseYears(da + "-" + db + rest) == Range(DigitsValue(da), DigitsValue(db))
  {
    HyphenAfter(da, db, rest);
    MatchDigitRange(da, db, rest);
  }

  /** `s` is digits `da`, a hyphen, digits `db` and a `rest` that does not
      continue `db`: the text `^(\d+)-(\d+)` matches. */
  predicate RangeText(s: string, da: string, db: string, rest: string) {
    s == da + "-" + db + rest
    && |da| > 0 && AllDigits(da) && |db| > 0 && AllDigits(db)
    && (rest == [] || !IsDigit(rest[0]))
  }

  /** `s` is read as the range from the number `da` to the number `db`. */
  predicate ReadAsRange(s: string, da: string, db: string) {
    AllDigits(da) && AllDigits(db) && ParseYears(s) == Range(DigitsValue(da), DigitsValue(db))
  }

  /** What `MatchRange` found when it gave a range: the two digit runs around
      the hyphen. */
  lemma RangeGroups(s: string)
    requires Contains(s, "-") && ParseYears(s).Range?
    ensures var da := DigitPrefix(s);
      0 < |da| < |s| && s[|da|] == '-'
      && |DigitPrefix(s[|da| + 1..])| > 0
      && ReadAsRange(s, da, DigitPrefix(s[|da| + 1..]))
  {
  }

  /** Cutting a text at its leading digits, the hyphen after them and the
      digits after that. */
  lemma CutAtHyphen(s: string, da: string, db: string)
    requires 0 < |da| < |s| && da == s[..|da|] && AllDigits(da) && s[|da|] == '-'
    requires var tail := s[|da| + 1..];
      0 < |db| <= |tail| && db == tail[..|db|] && AllDigits(db)
      && (|db| == |tail| || !IsDigit(tail[|db|]))
    ensures RangeText(s, da, db, s[|da| + 1..][|db|..])
  {
    var tail := s[|da| + 1..];
    var rest := tail[|db|..];
    assert tail == db + rest;
    assert s == da + "-" + tail by {
      assert s == s[..|da|] + [s[|da|]] + tail;
    }
    AppendAssoc(da + "-", db, rest);
  }

  /** The converse: a hyphenated argument is read as a range only when it
      starts with digits, a hyphen and digits, and the range is those two
      numbers; any other hyphenated argument is an invalid range. */
  lemma HyphenatedRangeShape(s: string)
    requires Contains(s, "-") && ParseYears(s).Range?
    ensures exists da, db, rest :: RangeText(s, da, db, rest) && ReadAsRange(s, da, db)
  {
    RangeGroups(s);
    var da := DigitPrefix(s);
    var db := DigitPrefix(s[|da| + 1..]);
    CutAtHyphen(s, da, db);
    var rest := s[|da| + 1..][|db|..];
    assert RangeText(s, da, db, rest) && ReadAsRange(s, da, db);
  }

  /** A hyphenated argument that does not start with `\d+-\d+` is an invalid range. */
  lemma HyphenWithoutRangeIsInvalid(s: string)
    requires Contains(s, "-")
    requires forall da, db, rest :: !RangeText(s, da, db, rest)
    ensures ParseYears(s) == InvalidRange
  {
    if ParseYears(s).Range? {
      HyphenatedRangeShape(s);
    }
  }

  /** "A-B" reads as the range A..B, whatever non-digit text follows B. */
  lemma ParseYearRange(a: nat, b: nat, rest: string)
    requires rest == [] || !IsDigit(rest[0])
    ensures ParseYears(NatToDigits(a) + "-" + NatToDigits(b) + rest) == Range(a, b)
  {
    ParseDigitRange(NatToDigits(a), NatToDigits(b), rest);
    DigitsRoundTrip(a);
    DigitsRoundTrip(b);
  }

  /** A single non-negative year, with any surrounding whitespace, is the range of that one year. */
  lemma ParseSingleYear(pre: string, y: nat, post: string)
    requires forall k :: 0 <= k < |pre| ==> pre[k] in Whitespace && pre[k] != '-'
    requires forall k :: 0 <= k < |post| ==> post[k] in Whitespace && post[k] != '-'
    ensures ParseYears(pre + FormatInt(y) + post) == Range(y, y)
  {
    var s := pre + FormatInt(y) + post;
    var d := NatToDigits(y);
    forall k | 0 <= k < |s|
      ensures s[k] != '-'
    {
      if k < |pre| {
      } else if k < |pre| + |d| {
        assert s[k] == d[k - |pre|];
      } else {
        assert s[k] == post[k - |pre| - |d|];
      }
    }
    NoHyphen(s);
    ParseFormatted(pre, y, post);
  }

  /** A negative single year contains a hyphen but no leading digits: it is
      rejected as an invalid range rather than read by `int()`. */
  lemma ParseNegativeYear(y: int)
    requires y < 0
    ensures ParseYears(FormatInt(y)) == InvalidRange
  {
    var s := FormatInt(y);
    assert s[..1] == "-";
  }
}
