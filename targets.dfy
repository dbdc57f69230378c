/** The `--years` argument and the (conference, year) targets of `scrape_mode`. */
module TargetPlan {
  import opened Wrappers
  import opened Text
  import opened Crawl

  /** `CONFERENCES`. */
  const Conferences: seq<Conference> := [
    Conference("ICML", "icml.cc", 2017),
    Conference("NeurIPS", "neurips.cc", 2006),
    Conference("ICLR", "iclr.cc", 2018)
  ]

  /** `range(start, end + 1)`. */
  function YearRange(start: int, end: int): (r: seq<int>)
    ensures |r| == if start <= end then end - start + 1 else 0
    ensures forall y :: y in r <==> start <= y <= end
    ensures forall i, j :: 0 <= i < j < |r| ==> r[i] < r[j]
  {
    if start > end then []
    else
      var r := seq(end - start + 1, i requires 0 <= i <= end - start => start + i);
      forall y | start <= y <= end
        ensures y in r
      {
        assert r[y - start] == y;
      }
      r
  }

  /** The years of `years` that conference `c` held, each paired with `c`, in order. */
  function ConferenceTargets(c: Conference, years: seq<int>): (r: seq<(Conference, int)>)
    ensures forall t :: t in r <==> t.0 == c && t.1 in years && t.1 >= c.firstYear
    decreases |years|
  {
    if years == [] then []
    else
      var rest := ConferenceTargets(c, years[1..]);
      assert forall y :: y in years <==> y == years[0] || y in years[1..];
      (if years[0] >= c.firstYear then [(c, years[0])] else []) + rest
  }

  /** The `paper_tasks` comprehension: conference-major, then year order, keeping
      `year >= conf.first_year`. */
  function Targets(confs: seq<Conference>, years: seq<int>): (r: seq<(Conference, int)>)
    ensures forall t :: t in r <==> t.0 in confs && t.1 in years && t.1 >= t.0.firstYear
    decreases |confs|
  {
    if confs == [] then []
    else
      var rest := Targets(confs[1..], years);
      assert forall c :: c in confs <==> c == confs[0] || c in confs[1..];
      ConferenceTargets(confs[0], years) + rest
  }

  /** Conference-major order: the targets of earlier conferences all precede
      those of later ones. */
  lemma {:induction false} TargetsAppend(a: seq<Conference>, b: seq<Conference>, years: seq<int>)
    ensures Targets(a + b, years) == Targets(a, years) + Targets(b, years)
    decreases |a|
  {
    if a != [] {
      assert (a + b)[1..] == a[1..] + b;
      TargetsAppend(a[1..], b, years);
    } else {
      assert a + b == b;
    }
  }

  predicate Increasing(years: seq<int>) {
    forall i, j :: 0 <= i < j < |years| ==> years[i] < years[j]
  }

  /** Every target is conference `c`, in strictly increasing year order. */
  predicate InYearOrder(c: Conference, ts: seq<(Conference, int)>) {
    (forall i :: 0 <= i < |ts| ==> ts[i].0 == c)
    && forall i, j :: 0 <= i < j < |ts| ==> ts[i].1 < ts[j].1
  }

  /** The years after the first of an increasing list are increasing, and all later. */
  lemma IncreasingTail(years: seq<int>)
    requires Increasing(years) && years != []
    ensures Increasing(years[1..])
    ensures forall y :: y in years[1..] ==> years[0] < y
  {
    forall i, j | 0 <= i < j < |years[1..]|
      ensures years[1..][i] < years[1..][j]
    {
      assert years[1..][i] == years[i + 1] && years[1..][j] == years[j + 1];
    }
    forall y | y in years[1..]
      ensures years[0] < y
    {
      var m :| 0 <= m < |years[1..]| && years[1..][m] == y;
      assert years[m + 1] == y;
    }
  }

  lemma InYearOrderCons(c: Conference, y: int, rest: seq<(Conference, int)>)
    requires InYearOrder(c, rest)
    requires forall k :: 0 <= k < |rest| ==> y < rest[k].1
    ensures InYearOrder(c, [(c, y)] + rest)
  {
    var ts := [(c, y)] + rest;
    forall i, j | 0 <= i < j < |ts|
      ensures ts[i].1 < ts[j].1
    {
      assert ts[j] == rest[j - 1];
      if i > 0 {
        assert ts[i] == rest[i - 1];
      }
    }
  }

  /** Over increasing years, one conference's targets come in increasing year order. */
  lemma {:induction false} ConferenceTargetsOrdered(c: Conference, years: seq<int>)
    requires Increasing(years)
    ensures InYearOrder(c, ConferenceTargets(c, years))
    decreases |years|
  {
    if years != [] {
      var rest := ConferenceTargets(c, years[1..]);
      IncreasingTail(years);
      ConferenceTargetsOrdered(c, years[1..]);
      if years[0] >= c.firstYear {
        forall k | 0 <= k < |rest|
          ensures years[0] < rest[k].1
        {
          assert rest[k] in rest;
        }
        InYearOrderCons(c, years[0], rest);
        assert ConferenceTargets(c, years) == [(c, years[0])] + rest;
      } else {
        assert ConferenceTargets(c, years) == [] + rest;
      }
    }
  }

  /** No conference is listed twice. */
  predicate DistinctConferences(confs: seq<Conference>) {
    forall p, q :: 0 <= p < q < |confs| ==> confs[p] != confs[q]
  }

  /** The position of `c` in `confs`. */
  function Rank(confs: seq<Conference>, c: Conference): (k: nat)
    requires c in confs
    ensures k < |confs| && confs[k] == c
  {
    if confs[0] == c then 0 else 1 + Rank(confs[1..], c)
  }

  /** Conference-major, then year order: of two targets, the earlier one's
      conference comes first in `confs`, or it is the same conference in an
      earlier year. */
  predicate ConferenceMajor(confs: seq<Conference>, ts: seq<(Conference, int)>) {
    forall i, j :: 0 <= i < j < |ts| ==>
      ts[i].0 in confs && ts[j].0 in confs
      && (Rank(confs, ts[i].0) < Rank(confs, ts[j].0)
          || (ts[i].0 == ts[j].0 && ts[i].1 < ts[j].1))
  }

  lemma RankTail(confs: seq<Conference>, c: Conference)
    requires DistinctConferences(confs) && confs != [] && c in confs[1..]
    ensures Rank(confs, c) == 1 + Rank(confs[1..], c)
  {
    var m :| 0 <= m < |confs[1..]| && confs[1..][m] == c;
    assert confs[m + 1] == c;
  }

  lemma DistinctTail(confs: seq<Conference>)
    requires DistinctConferences(confs) && confs != []
    ensures DistinctConferences(confs[1..])
  {
    forall p, q | 0 <= p < q < |confs[1..]|
      ensures confs[1..][p] != confs[1..][q]
    {
      assert confs[1..][p] == confs[p + 1] && confs[1..][q] == confs[q + 1];
    }
  }

  /** For distinct conferences and increasing years, `Targets` lists the
      conferences in their given order and each conference's years in order. */
  lemma {:induction false} TargetsConferenceMajor(confs: seq<Conference>, years: seq<int>)
    requires DistinctConferences(confs) && Increasing(years)
    ensures ConferenceMajor(confs, Targets(confs, years))
    decreases |confs|
  {
    if confs != [] {
      var head := ConferenceTargets(confs[0], years);
      var rest := Targets(confs[1..], years);
      var r := Targets(confs, years);
      assert r == head + rest;
      ConferenceTargetsOrdered(confs[0], years);
      DistinctTail(confs);
      TargetsConferenceMajor(confs[1..], years);
      forall i, j | 0 <= i < j < |r|
        ensures r[i].0 in confs && r[j].0 in confs
             && (Rank(confs, r[i].0) < Rank(confs, r[j].0)
                 || (r[i].0 == r[j].0 && r[i].1 < r[j].1))
      {
        assert r[i] in r && r[j] in r;
        if j < |head| {
          assert r[i] == head[i] && r[j] == head[j];
        } else if i < |head| {
          assert r[i] == head[i];
          assert r[j] == rest[j - |head|] && rest[j - |head|] in rest;
          RankTail(confs, r[j].0);
        } else {
          assert r[i] == rest[i - |head|] && r[j] == rest[j - |head|];
          assert rest[i - |head|] in rest && rest[j - |head|] in rest;
          RankTail(confs, r[i].0);
          RankTail(confs, r[j].0);
        }
      }
    }
  }

  /** The configured conferences over a `--years` range: ICML first, then
      NeurIPS, then ICLR, each in increasing year order. */
  lemma ConfiguredTargetsOrder(start: int, end: int)
    ensures ConferenceMajor(Conferences, Targets(Conferences, YearRange(start, end)))
  {
    assert Conferences[0].name != Conferences[1].name;
    assert Conferences[0].name != Conferences[2].name;
    assert Conferences[1].name != Conferences[2].name;
    TargetsConferenceMajor(Conferences, YearRange(start, end));
  }

  /** The targets of three conferences, one after the other. */
  lemma ThreeConferences(a: Conference, b: Conference, c: Conference, years: seq<int>)
    ensures Targets([a, b, c], years)
         == ConferenceTargets(a, years) + ConferenceTargets(b, years) + ConferenceTargets(c, years)
  {
    var cs := [a, b, c];
    assert cs[1..] == [b, c] && cs[1..][1..] == [c] && cs[1..][1..][1..] == [];
    assert Targets([c], years) == ConferenceTargets(c, years) + [];
  }

  /** A conference held in both of two consecutive years is scraped for both. */
  lemma HeldBoth(c: Conference, y: int)
    requires c.firstYear <= y
    ensures ConferenceTargets(c, [y, y + 1]) == [(c, y), (c, y + 1)]
  {
    var ys := [y, y + 1];
    assert ys[1..] == [y + 1] && ys[1..][1..] == [];
    assert ConferenceTargets(c, [y + 1]) == [(c, y + 1)] + [];
  }

  /** A conference first held in the second year is scraped for that year only. */
  lemma HeldSecond(c: Conference, y: int)
    requires c.firstYear == y + 1
    ensures ConferenceTargets(c, [y, y + 1]) == [(c, y + 1)]
  {
    var ys := [y, y + 1];
    assert ys[1..] == [y + 1] && ys[1..][1..] == [];
    assert ConferenceTargets(c, [y + 1]) == [(c, y + 1)] + [];
  }

  /** Five targets joined from runs of two, two and one. */
  lemma JoinRuns<T>(p: T, q: T, r: T, t: T, u: T)
    ensures [p, q] + [r, t] + [u] == [p, q, r, t, u]
  {
  }

  /** A year before every configured conference's first year selects no target. */
  lemma NoTargetsBefore(y: int)
    requires y < 2006
    ensures Targets(Conferences, YearRange(y, y)) == []
  {
    var ys := YearRange(y, y);
    assert ys == [y] && ys[1..] == [];
    ThreeConferences(Conferences[0], Conferences[1], Conferences[2], ys);
    assert Conferences == [Conferences[0], Conferences[1], Conferences[2]];
  }

  /** `range(2017, 2019)`. */
  lemma TwoYearRange()
    ensures YearRange(2017, 2018) == [2017, 2018]
  {
    var ys := YearRange(2017, 2018);
    assert ys[0] == 2017 && ys[1] == 2018;
  }

  /** Two conferences held by the first year and one that starts in the second:
      conference-major, then year order. */
  lemma LateThirdConference(a: Conference, b: Conference, c: Conference, y: int)
    requires a.firstYear <= y && b.firstYear <= y && c.firstYear == y + 1
    ensures Targets([a, b, c], [y, y + 1]) == [(a, y), (a, y + 1), (b, y), (b, y + 1), (c, y + 1)]
  {
    ThreeConferences(a, b, c, [y, y + 1]);
    HeldBoth(a, y);
    HeldBoth(b, y);
    HeldSecond(c, y);
    JoinRuns((a, y), (a, y + 1), (b, y), (b, y + 1), (c, y + 1));
  }

  /** For example, "2017-2018" scrapes ICML 2017 and 2018, NeurIPS 2017 and 2018,
      and ICLR 2018 only, in that order. */
  lemma TargetsExample()
    ensures Targets(Conferences, YearRange(2017, 2018))
         == [(Conferences[0], 2017), (Conferences[0], 2018),
             (Conferences[1], 2017), (Conferences[1], 2018),
             (Conferences[2], 2018)]
  {
    TwoYearRange();
    assert Conferences == [Conferences[0], Conferences[1], Conferences[2]];
    LateThirdConference(Conferences[0], Conferences[1], Conferences[2], 2017);
  }
}
