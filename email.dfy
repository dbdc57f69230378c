/** The email pattern of `get_contacts`,
    `[a-zA-Z0-9._%+-]+@[a-zA-Z0-9.-]+\.[a-zA-Z]{2,}`, and the first match
    `re.findall` returns for it. */
module EmailPattern {
  import opened Wrappers

  predicate IsAsciiLetter(c: char) {
    'a' <= c <= 'z' || 'A' <= c <= 'Z'
  }

  predicate IsAsciiAlnum(c: char) {
    IsAsciiLetter(c) || '0' <= c <= '9'
  }

  /** The three character classes of the pattern. */
  datatype Class =
    | Local   // [a-zA-Z0-9._%+-]
    | Domain  // [a-zA-Z0-9.-]
    | Letter  // [a-zA-Z]

  predicate In(c: char, k: Class) {
    match k
    case Local => IsAsciiAlnum(c) || c == '.' || c == '_' || c == '%' || c == '+' || c == '-'
    case Domain => IsAsciiAlnum(c) || c == '.' || c == '-'
    case Letter => IsAsciiLetter(c)
  }

  predicate AllIn(s: string, k: Class) {
    forall i :: 0 <= i < |s| ==> In(s[i], k)
  }

  /** An address the pattern describes, split at its '@' and at the dot before
      its top-level part. */
  predicate EmailShaped(local: string, domain: string, tld: string) {
    |local| > 0 && AllIn(local, Local)
    && |domain| > 0 && AllIn(domain, Domain)
    && |tld| >= 2 && AllIn(tld, Letter)
  }

  /** The longest run of class `k` starting at `p`. */
  function RunLength(s: string, p: nat, k: Class): (n: nat)
    requires p <= |s|
    ensures p + n <= |s|
    ensures forall i :: p <= i < p + n ==> In(s[i], k)
    ensures p + n == |s| || !In(s[p + n], k)
    decreases |s| - p
  {
    if p < |s| && In(s[p], k) then 1 + RunLength(s, p + 1, k) else 0
  }

  /** `\.[a-zA-Z]{2,}` can start at `d`. */
  predicate DotAt(s: string, d: nat) {
    d + 2 < |s| && s[d] == '.' && IsAsciiLetter(s[d + 1]) && IsAsciiLetter(s[d + 2])
  }

  /** The last position in [lo, hi) where `DotAt` holds. */
  function LastDot(s: string, lo: nat, hi: nat): (r: Option<nat>)
    ensures r.Some? ==> lo <= r.value < hi && DotAt(s, r.value)
    ensures r.Some? ==> forall k :: r.value < k < hi ==> !DotAt(s, k)
    ensures r.None? ==> forall k :: lo <= k < hi ==> !DotAt(s, k)
    decreases hi
  {
    if hi <= lo then None
    else if DotAt(s, hi - 1) then Some(hi - 1)
    else LastDot(s, lo, hi - 1)
  }

  /** Where the match of the pattern that starts exactly at `p` puts its '@'
      (`q`), the dot before its top-level part (`d`) and its end (`e`), if the
      pattern matches there. No class of the local part holds '@', so the local
      part is the whole run before the '@'. The greedy domain part backs off from
      the end of its run to the last dot that two letters follow, and the letters
      then run as far as they go. */
  function MatchSpan(s: string, p: nat): (r: Option<(nat, nat, nat)>)
    requires p <= |s|
    ensures r.Some? ==> p < r.value.0 && r.value.0 + 1 < r.value.1 && r.value.1 + 2 < r.value.2 <= |s|
  {
    var q := p + RunLength(s, p, Local);
    if q == p || q >= |s| || s[q] != '@' then None
    else
      var end := q + 1 + RunLength(s, q + 1, Domain);
      match LastDot(s, q + 2, end)
      case None => None
      case Some(d) => Some((q, d, d + 1 + RunLength(s, d + 1, Letter)))
  }

  /** A match has the '@' and the dot where it says, a non-empty local part, a
      domain part of at least one character and at least two letters after the
      dot, each part in its character class. */
  lemma MatchSpanShape(s: string, p: nat)
    requires p <= |s| && MatchSpan(s, p).Some?
    ensures var (q, d, e) := MatchSpan(s, p).value;
      s[q] == '@' && s[d] == '.'
      && (forall i :: p <= i < q ==> In(s[i], Local))
      && (forall i :: q < i < d ==> In(s[i], Domain))
      && (forall i :: d < i < e ==> In(s[i], Letter))
  {
  }

  /** The text of that match. */
  function MatchAt(s: string, p: nat): (r: Option<string>)
    requires p <= |s|
    ensures r.Some? ==> p + |r.value| <= |s| && s[p..p + |r.value|] == r.value
  {
    match MatchSpan(s, p)
    case None => None
    case Some((q, d, e)) => Some(s[p..e])
  }

  /** A text cut at two inner positions is the three pieces and the two
      characters between them. */
  lemma CutTwice(s: string, p: nat, q: nat, d: nat, e: nat)
    requires p <= q < d < e <= |s|
    ensures s[p..e] == s[p..q] + [s[q]] + s[q + 1..d] + [s[d]] + s[d + 1..e]
  {
    assert s[p..e] == s[p..q] + s[q..e];
    assert s[q..e] == [s[q]] + s[q + 1..e];
    assert s[q + 1..e] == s[q + 1..d] + s[d..e];
    assert s[d..e] == [s[d]] + s[d + 1..e];
  }

  /** Every character of `s` in [lo, hi) is of class `k`. */
  lemma AllInSlice(s: string, lo: nat, hi: nat, k: Class)
    requires lo <= hi <= |s|
    requires forall i :: lo <= i < hi ==> In(s[i], k)
    ensures AllIn(s[lo..hi], k)
  {
    forall i | 0 <= i < hi - lo
      ensures In(s[lo..hi][i], k)
    {
      assert s[lo..hi][i] == s[lo + i];
    }
  }

  /** Every match is an address the pattern describes. */
  lemma MatchShape(s: string, p: nat)
    requires p <= |s| && MatchAt(s, p).Some?
    ensures exists local, domain, tld :: EmailShaped(local, domain, tld)
              && MatchAt(s, p).value == local + "@" + domain + "." + tld
  {
    var (q, d, e) := MatchSpan(s, p).value;
    var local, domain, tld := s[p..q], s[q + 1..d], s[d + 1..e];
    MatchSpanShape(s, p);
    CutTwice(s, p, q, d, e);
    AllInSlice(s, p, q, Local);
    AllInSlice(s, q + 1, d, Domain);
    AllInSlice(s, d + 1, e, Letter);
    assert EmailShaped(local, domain, tld);
    assert MatchAt(s, p).value == local + "@" + domain + "." + tld;
  }

  /** Every match holds an '@'. */
  lemma MatchHasAt(s: string, p: nat)
    requires p <= |s| && MatchAt(s, p).Some?
    ensures '@' in MatchAt(s, p).value
  {
    var (q, d, e) := MatchSpan(s, p).value;
    MatchSpanShape(s, p);
    assert MatchAt(s, p).value[q - p] == '@';
  }

  /** The leftmost position from `p` on where the pattern matches: `re.findall`
      reports its matches in order, so its first one starts there. */
  function FirstStart(s: string, p: nat): (r: Option<nat>)
    requires p <= |s|
    ensures r.Some? ==> p <= r.value <= |s| && MatchAt(s, r.value).Some?
    ensures r.Some? ==> forall j :: p <= j < r.value ==> MatchAt(s, j).None?
    ensures r.None? ==> forall k :: p <= k <= |s| ==> MatchAt(s, k).None?
    decreases |s| - p
  {
    if MatchAt(s, p).Some? then Some(p)
    else if p == |s| then None
    else FirstStart(s, p + 1)
  }

  /** `found_emails[0]` when `re.findall(email_pattern, text)` is not empty. */
  function FirstEmail(text: string): Option<string> {
    match FirstStart(text, 0)
    case None => None
    case Some(k) => MatchAt(text, k)
  }

  /** So does the first one. */
  lemma FirstEmailHasAt(text: string)
    requires FirstEmail(text).Some?
    ensures '@' in FirstEmail(text).value
  {
    MatchHasAt(text, FirstStart(text, 0).value);
  }

  /** A text without '@' holds no address. */
  lemma NoAtNoEmail(text: string)
    requires forall i :: 0 <= i < |text| ==> text[i] != '@'
    ensures FirstEmail(text) == None
  {
    forall k | 0 <= k <= |text|
      ensures MatchAt(text, k).None?
    {
      var q := k + RunLength(text, k, Local);
      assert q < |text| ==> text[q] != '@';
    }
  }

  /** Where the parts of `local@domain.tld` followed by `rest` sit. */
  lemma AddressLayout(local: string, domain: string, tld: string, rest: string)
    ensures var s := local + "@" + domain + "." + tld + rest;
      var q := |local|;
      var d := q + 1 + |domain|;
      var e := d + 1 + |tld|;
      && e <= |s| && s[q] == '@' && s[d] == '.'
      && (forall i :: 0 <= i < q ==> s[i] == local[i])
      && (forall i :: q < i < d ==> s[i] == domain[i - q - 1])
      && (forall i :: d < i < e ==> s[i] == tld[i - d - 1])
      && (e == |s| || s[e] == rest[0])
  {
  }

  /** The dot the greedy domain part backs off to. */
  lemma {:induction false} LastDotIs(s: string, lo: nat, hi: nat, d: nat)
    requires lo <= d < hi <= |s| && DotAt(s, d)
    requires forall k :: d < k < hi ==> s[k] != '.'
    ensures LastDot(s, lo, hi) == Some(d)
    decreases hi
  {
    if hi - 1 > d {
      LastDotIs(s, lo, hi - 1, d);
    }
  }

  /** The span `MatchSpan` finds from 0, given the runs it measures and the dot
      it backs off to. */
  lemma SpanOfRuns(s: string, q: nat, d: nat, e: nat)
    requires 0 < q < |s| && s[q] == '@' && q + 2 <= d < e <= |s|
    requires RunLength(s, 0, Local) == q
    requires RunLength(s, q + 1, Domain) == e - q - 1
    requires LastDot(s, q + 2, e) == Some(d)
    requires RunLength(s, d + 1, Letter) == e - d - 1
    ensures MatchSpan(s, 0) == Some((q, d, e))
  {
  }

  /** The span `MatchSpan` finds from 0 when the text is laid out as an address
      up to `e` and the character at `e` cannot continue its domain. */
  lemma SpanAt(s: string, q: nat, d: nat, e: nat)
    requires 0 < q && q + 1 < d && d + 2 < e <= |s| && s[q] == '@' && s[d] == '.'
    requires forall i :: 0 <= i < q ==> In(s[i], Local)
    requires forall i :: q < i < d ==> In(s[i], Domain)
    requires forall i :: d < i < e ==> In(s[i], Letter)
    requires e == |s| || !In(s[e], Domain)
    ensures MatchSpan(s, 0) == Some((q, d, e))
  {
    assert !In(s[q], Local);
    RunFrom(s, 0, q, Local);
    forall i | q < i < e
      ensures In(s[i], Domain)
    {
      if d < i {
        assert In(s[i], Letter);
      }
    }
    RunFrom(s, q + 1, e, Domain);
    forall i | d < i < e
      ensures s[i] != '.'
    {
      assert In(s[i], Letter);
    }
    assert In(s[d + 1], Letter) && In(s[d + 2], Letter);
    LastDotIs(s, q + 2, e, d);
    assert e == |s| || !In(s[e], Letter);
    RunFrom(s, d + 1, e, Letter);
    SpanOfRuns(s, q, d, e);
  }

  /** The span of an address at the start of a text, followed by a character
      that cannot continue its domain. */
  lemma SpanOfAddress(local: string, domain: string, tld: string, rest: string)
    requires EmailShaped(local, domain, tld)
    requires rest == [] || !In(rest[0], Domain)
    ensures var s := local + "@" + domain + "." + tld + rest;
      var q := |local|;
      var d := q + 1 + |domain|;
      MatchSpan(s, 0) == Some((q, d, d + 1 + |tld|))
  {
    var s := local + "@" + domain + "." + tld + rest;
    var q := |local|;
    var d := q + 1 + |domain|;
    var e := d + 1 + |tld|;
    AddressLayout(local, domain, tld, rest);
    assert forall i :: 0 <= i < q ==> In(s[i], Local) by {
      forall i | 0 <= i < q
        ensures In(s[i], Local)
      {
        assert In(local[i], Local);
      }
    }
    assert forall i :: q < i < d ==> In(s[i], Domain) by {
      forall i | q < i < d
        ensures In(s[i], Domain)
      {
        assert In(domain[i - q - 1], Domain);
      }
    }
    assert forall i :: d < i < e ==> In(s[i], Letter) by {
      forall i | d < i < e
        ensures In(s[i], Letter)
      {
        assert In(tld[i - d - 1], Letter);
      }
    }
    SpanAt(s, q, d, e);
  }

  /** An address at the start of the text, followed by a character that cannot
      continue its domain, is the first match, read back whole. */
  lemma MatchAtAddress(local: string, domain: string, tld: string, rest: string)
    requires EmailShaped(local, domain, tld)
    requires rest == [] || !In(rest[0], Domain)
    ensures FirstEmail(local + "@" + domain + "." + tld + rest) == Some(local + "@" + domain + "." + tld)
  {
    var email := local + "@" + domain + "." + tld;
    var s := email + rest;
    SpanOfAddress(local, domain, tld, rest);
    assert s[0..|email|] == email;
  }

  /** A run of class `k` from `p` to `e` that stops at `e` is the longest run. */
  lemma {:induction false} RunFrom(s: string, p: nat, e: nat, k: Class)
    requires p <= e <= |s|
    requires forall i :: p <= i < e ==> In(s[i], k)
    requires e == |s| || !In(s[e], k)
    ensures RunLength(s, p, k) == e - p
    decreases e - p
  {
    if p < e {
      RunFrom(s, p + 1, e, k);
    }
  }
}
