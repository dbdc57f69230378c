/** `drop_duplicates(subset=["Conference", "Year", "Title", "Author"], keep="first")`
    over the concatenation of the rows already on disk and the new ones. */
module Merge {
  import opened Text
  import opened Crawl

  /** The subset of columns two rows are compared on; the affiliation is not part of it. */
  datatype Key = Key(conference: string, year: int, title: string, author: string)

  function KeyOf(r: Row): Key {
    Key(r.conference, r.year, r.title, r.author)
  }

  /** The keys that occur among `rows`. */
  function KeySet(rows: seq<Row>): (r: set<Key>)
    ensures forall k :: k in r <==> exists i :: 0 <= i < |rows| && KeyOf(rows[i]) == k
    decreases |rows|
  {
    if rows == [] then {}
    else
      var rest := KeySet(rows[1..]);
      assert forall i :: 1 <= i < |rows| ==> rows[i] == rows[1..][i - 1];
      {KeyOf(rows[0])} + rest
  }

  /** No key occurs twice. */
  predicate KeysDistinct(rows: seq<Row>) {
    forall i, j :: 0 <= i < j < |rows| ==> KeyOf(rows[i]) != KeyOf(rows[j])
  }

  /** `a` is `b` with some rows removed and the rest kept in order. */
  predicate IsSubsequence(a: seq<Row>, b: seq<Row>)
    decreases |b|
  {
    if a == [] then true
    else if b == [] then false
    else if a[0] == b[0] then IsSubsequence(a[1..], b[1..])
    else IsSubsequence(a, b[1..])
  }

  /** The position of the first row with key `k`. */
  function FirstIndex(rows: seq<Row>, k: Key): (j: nat)
    requires exists i :: 0 <= i < |rows| && KeyOf(rows[i]) == k
    ensures j < |rows| && KeyOf(rows[j]) == k
    ensures forall l :: 0 <= l < j ==> KeyOf(rows[l]) != k
    decreases |rows|
  {
    if KeyOf(rows[0]) == k then 0
    else
      var i :| 0 <= i < |rows| && KeyOf(rows[i]) == k;
      assert rows[1..][i - 1] == rows[i];
      var j := FirstIndex(rows[1..], k);
      assert rows[j + 1] == rows[1..][j];
      assert forall l :: 1 <= l < j + 1 ==> rows[l] == rows[1..][l - 1];
      j + 1
  }

  /** The scan `drop_duplicates` performs: walk the rows in order and keep a row
      when its key has not been seen yet. */
  function DedupFrom(rows: seq<Row>, seen: set<Key>): seq<Row>
    decreases |rows|
  {
    if rows == [] then []
    else if KeyOf(rows[0]) in seen then DedupFrom(rows[1..], seen)
    else [rows[0]] + DedupFrom(rows[1..], seen + {KeyOf(rows[0])})
  }

  /** `keep="first"` starting from no seen keys. */
  function Dedup(rows: seq<Row>): seq<Row> {
    DedupFrom(rows, {})
  }

  /** The kept rows have pairwise different keys, none of them already seen. */
  lemma {:induction false} DedupFromDistinct(rows: seq<Row>, seen: set<Key>)
    ensures KeysDistinct(DedupFrom(rows, seen))
    ensures forall i :: 0 <= i < |DedupFrom(rows, seen)| ==> KeyOf(DedupFrom(rows, seen)[i]) !in seen
    decreases |rows|
  {
    if rows != [] {
      var k := KeyOf(rows[0]);
      if k in seen {
        DedupFromDistinct(rows[1..], seen);
      } else {
        DedupFromDistinct(rows[1..], seen + {k});
        var out := DedupFrom(rows, seen);
        var tail := DedupFrom(rows[1..], seen + {k});
        assert out == [rows[0]] + tail;
        assert forall i :: 1 <= i < |out| ==> out[i] == tail[i - 1];
      }
    }
  }

  /** Exactly the keys of the input that were not seen before survive. */
  lemma {:induction false} DedupFromKeys(rows: seq<Row>, seen: set<Key>)
    ensures KeySet(DedupFrom(rows, seen)) == KeySet(rows) - seen
    decreases |rows|
  {
    if rows != [] {
      var k := KeyOf(rows[0]);
      assert KeySet(rows) == {k} + KeySet(rows[1..]);
      if k in seen {
        DedupFromKeys(rows[1..], seen);
      } else {
        DedupFromKeys(rows[1..], seen + {k});
        var tail := DedupFrom(rows[1..], seen + {k});
        assert DedupFrom(rows, seen) == [rows[0]] + tail;
        assert ([rows[0]] + tail)[1..] == tail;
        assert KeySet(DedupFrom(rows, seen)) == {k} + KeySet(tail);
      }
    }
  }

  /** Each kept row is the first input row with its key. */
  lemma {:induction false} DedupFromFirst(rows: seq<Row>, seen: set<Key>, x: Row)
    requires x in DedupFrom(rows, seen)
    ensures KeyOf(x) in KeySet(rows) && KeyOf(x) !in seen
    ensures x == rows[FirstIndex(rows, KeyOf(x))]
    decreases |rows|
  {
    var k := KeyOf(rows[0]);
    if k in seen {
      DedupFromFirst(rows[1..], seen, x);
      assert KeyOf(x) != k;
      var j := FirstIndex(rows[1..], KeyOf(x));
      assert rows[j + 1] == rows[1..][j];
      assert FirstIndex(rows, KeyOf(x)) == j + 1;
    } else if x == rows[0] {
      assert KeyOf(rows[0]) in KeySet(rows);
    } else {
      var tail := DedupFrom(rows[1..], seen + {k});
      assert x in tail;
      DedupFromFirst(rows[1..], seen + {k}, x);
      var j := FirstIndex(rows[1..], KeyOf(x));
      assert rows[j + 1] == rows[1..][j];
      assert FirstIndex(rows, KeyOf(x)) == j + 1;
    }
  }

  /** The output keeps input rows in their input order. */
  lemma {:induction false} DedupFromSubsequence(rows: seq<Row>, seen: set<Key>)
    ensures IsSubsequence(DedupFrom(rows, seen), rows)
    decreases |rows|
  {
    if rows != [] {
      var k := KeyOf(rows[0]);
      if k in seen {
        DedupFromSubsequence(rows[1..], seen);
        SubsequenceSkip(DedupFrom(rows[1..], seen), rows);
      } else {
        DedupFromSubsequence(rows[1..], seen + {k});
        var out := DedupFrom(rows, seen);
        assert out[0] == rows[0] && out[1..] == DedupFrom(rows[1..], seen + {k});
      }
    }
  }

  /** Dropping the head of `b` keeps `a` a subsequence of `b`. */
  lemma {:induction false} SubsequenceSkip(a: seq<Row>, b: seq<Row>)
    requires b != [] && IsSubsequence(a, b[1..])
    ensures IsSubsequence(a, b)
    decreases |b|, 0
  {
    if a != [] && a[0] == b[0] {
      SubsequenceTail(a, b[1..]);
    }
  }

  /** A subsequence minus its head is still a subsequence. */
  lemma {:induction false} SubsequenceTail(a: seq<Row>, b: seq<Row>)
    requires a != [] && IsSubsequence(a, b)
    ensures IsSubsequence(a[1..], b)
    decreases |b|, 1
  {
    if a[0] == b[0] {
      if a[1..] != [] {
        SubsequenceSkip(a[1..], b);
      }
    } else {
      SubsequenceTail(a, b[1..]);
      SubsequenceSkip(a[1..], b);
    }
  }

  /** Rows whose keys are distinct and unseen pass unchanged. */
  lemma {:induction false} DedupFromKeepsDistinct(rows: seq<Row>, seen: set<Key>)
    requires KeysDistinct(rows)
    requires forall i :: 0 <= i < |rows| ==> KeyOf(rows[i]) !in seen
    ensures DedupFrom(rows, seen) == rows
    decreases |rows|
  {
    if rows != [] {
      var k := KeyOf(rows[0]);
      assert forall i :: 0 <= i < |rows[1..]| ==> rows[1..][i] == rows[i + 1];
      DedupFromKeepsDistinct(rows[1..], seen + {k});
    }
  }

  /** Dropping duplicates twice is dropping them once. */
  lemma DedupIdempotent(rows: seq<Row>)
    ensures Dedup(Dedup(rows)) == Dedup(rows)
  {
    DedupFromDistinct(rows, {});
    DedupFromKeepsDistinct(Dedup(rows), {});
  }

  /** Scanning `a + b` is scanning `a`, then `b` with `a`'s keys already seen. */
  lemma {:induction false} DedupFromAppend(a: seq<Row>, b: seq<Row>, seen: set<Key>)
    ensures DedupFrom(a + b, seen) == DedupFrom(a, seen) + DedupFrom(b, seen + KeySet(a))
    decreases |a|
  {
    if a == [] {
      assert a + b == b;
      assert seen + KeySet(a) == seen;
    } else {
      var h, t := a[0], a[1..];
      assert a + b == [h] + (t + b) && a == [h] + t;
      DedupFromCons(h, t + b, seen);
      DedupFromCons(h, t, seen);
      SeenAfterHead(seen, h, t);
      if KeyOf(h) in seen {
        DedupFromAppend(t, b, seen);
      } else {
        var seen' := seen + {KeyOf(h)};
        DedupFromAppend(t, b, seen');
        AppendAssoc([h], DedupFrom(t, seen'), DedupFrom(b, seen' + KeySet(t)));
      }
    }
  }

  /** The keys seen after the head row and the rest are those of the whole. */
  lemma SeenAfterHead(seen: set<Key>, h: Row, t: seq<Row>)
    ensures KeyOf(h) in seen ==> seen + KeySet(t) == seen + KeySet([h] + t)
    ensures seen + {KeyOf(h)} + KeySet(t) == seen + KeySet([h] + t)
  {
    KeySetCons(h, t);
  }

  /** One step of the scan. */
  lemma DedupFromCons(r: Row, rest: seq<Row>, seen: set<Key>)
    ensures DedupFrom([r] + rest, seen)
         == if KeyOf(r) in seen then DedupFrom(rest, seen) else [r] + DedupFrom(rest, seen + {KeyOf(r)})
  {
    assert ([r] + rest)[0] == r && ([r] + rest)[1..] == rest;
  }

  /** The keys of a row followed by more rows. */
  lemma KeySetCons(r: Row, rest: seq<Row>)
    ensures KeySet([r] + rest) == {KeyOf(r)} + KeySet(rest)
  {
    assert ([r] + rest)[0] == r && ([r] + rest)[1..] == rest;
  }

  /** Rows already on disk come first in the concatenation, so they win: every
      key among them keeps its first existing row, and a new row survives only
      when its key is new (and is the first new row with that key). */
  lemma ExistingRowsWin(existing: seq<Row>, incoming: seq<Row>)
    ensures Dedup(existing + incoming) == Dedup(existing) + DedupFrom(incoming, KeySet(existing))
    ensures forall x :: x in DedupFrom(incoming, KeySet(existing)) ==> KeyOf(x) !in KeySet(existing)
  {
    DedupFromAppend(existing, incoming, {});
    assert {} + KeySet(existing) == KeySet(existing);
    forall x | x in DedupFrom(incoming, KeySet(existing))
      ensures KeyOf(x) !in KeySet(existing)
    {
      DedupFromFirst(incoming, KeySet(existing), x);
    }
  }

  /** Exactly one row per key of the input, namely the earliest one, in input
      order. */
  lemma DedupSpec(rows: seq<Row>)
    ensures KeysDistinct(Dedup(rows))
    ensures KeySet(Dedup(rows)) == KeySet(rows)
    ensures forall x :: x in Dedup(rows) ==> KeyOf(x) in KeySet(rows) && x == rows[FirstIndex(rows, KeyOf(x))]
    ensures IsSubsequence(Dedup(rows), rows)
  {
    DedupFromDistinct(rows, {});
    DedupFromKeys(rows, {});
    forall x | x in Dedup(rows)
      ensures KeyOf(x) in KeySet(rows) && x == rows[FirstIndex(rows, KeyOf(x))]
    {
      DedupFromFirst(rows, {}, x);
    }
    DedupFromSubsequence(rows, {});
  }

  /** The combined data frame `drop_duplicates(..., inplace=True)` works on. */
  class Frame {
    var rows: seq<Row>

    constructor (rows: seq<Row>)
      ensures this.rows == rows
    {
      this.rows := rows;
    }

    /** In-place `drop_duplicates`, walking the rows with a set of seen keys. */
    method DropDuplicates()
      modifies this
      ensures rows == Dedup(old(rows))
    {
      var input := rows;
      var seen: set<Key> := {};
      var out: seq<Row> := [];
      var i := 0;
      while i < |input|
        invariant 0 <= i <= |input|
        invariant out + DedupFrom(input[i..], seen) == Dedup(input)
      {
        var k := KeyOf(input[i]);
        assert input[i..][0] == input[i] && input[i..][1..] == input[i + 1..];
        if k !in seen {
          assert out + DedupFrom(input[i..], seen) == (out + [input[i]]) + DedupFrom(input[i + 1..], seen + {k});
          out := out + [input[i]];
          seen := seen + {k};
        }
        i := i + 1;
      }
      assert input[i..] == [];
      assert out + [] == out;
      rows := out;
    }
  }
}
