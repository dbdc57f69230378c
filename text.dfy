/** String helpers with Python's meaning: `str.strip`, the `in` substring test,
    `str.replace` and the ASCII part of `str.lower`. */
module Text {

  /** The characters for which Python's `str.isspace()` holds; `str.strip()` and
      `str.split()` without arguments treat exactly these as whitespace. */
  const Whitespace: set<char> := {
    '\t', '\n', '\U{000B}', '\U{000C}', '\r', '\U{001C}', '\U{001D}', '\U{001E}', '\U{001F}', ' ',
    '\U{0085}', '\U{00A0}', '\U{1680}', '\U{2000}', '\U{2001}', '\U{2002}', '\U{2003}', '\U{2004}',
    '\U{2005}', '\U{2006}', '\U{2007}', '\U{2008}', '\U{2009}', '\U{200A}', '\U{2028}', '\U{2029}',
    '\U{202F}', '\U{205F}', '\U{3000}'
  }

  /** Concatenation is associative. */
  lemma AppendAssoc<T>(a: seq<T>, b: seq<T>, c: seq<T>)
    ensures a + b + c == a + (b + c)
  {
  }

  /** Empty sequences around a sequence leave it as it is. */
  /** Regrouping a chain of six concatenations to the right after its first two. */
  lemma AppendRegroup<T>(a: seq<T>, b: seq<T>, c: seq<T>, d: seq<T>, e: seq<T>, f: seq<T>)
    ensures a + b + c + d + e + f == a + b + (c + (d + (e + f)))
  {
    AppendAssoc(a + b + c + d, e, f);
    AppendAssoc(a + b + c, d, e + f);
    AppendAssoc(a + b, c, d + (e + f));
  }

  lemma AppendEmpty<T>(a: seq<T>)
    ensures [] + a == a && a + [] == a && [] + a + [] == a
  {
  }

  /** `s.lstrip(cs)`: the longest suffix of `s` that does not start with a character of `cs`. */
  function StripLeft(s: string, cs: set<char>): (r: string)
    ensures |r| <= |s| && r == s[|s| - |r|..]
    ensures forall k :: 0 <= k < |s| - |r| ==> s[k] in cs
    ensures r == [] || r[0] !in cs
    decreases |s|
  {
    if |s| > 0 && s[0] in cs then StripLeft(s[1..], cs) else s
  }

  /** `s.rstrip(cs)`: the longest prefix of `s` that does not end with a character of `cs`. */
  function StripRight(s: string, cs: set<char>): (r: string)
    ensures |r| <= |s| && r == s[..|r|]
    ensures forall k :: |r| <= k < |s| ==> s[k] in cs
    ensures r == [] || r[|r| - 1] !in cs
    decreases |s|
  {
    if |s| > 0 && s[|s| - 1] in cs then StripRight(s[..|s| - 1], cs) else s
  }

  /** `s.strip(cs)`; `Strip(s, Whitespace)` is `s.strip()`. */
  function Strip(s: string, cs: set<char>): (r: string)
    ensures |r| <= |s|
    ensures r == [] || (r[0] !in cs && r[|r| - 1] !in cs)
  {
    StripRight(StripLeft(s, cs), cs)
  }

  lemma {:induction false} StripLeftAround(pre: string, x: string, cs: set<char>)
    requires forall k :: 0 <= k < |pre| ==> pre[k] in cs
    requires x == [] || x[0] !in cs
    ensures StripLeft(pre + x, cs) == x
    decreases |pre|
  {
    if pre != [] {
      assert (pre + x)[1..] == pre[1..] + x;
      StripLeftAround(pre[1..], x, cs);
    }
  }

  lemma {:induction false} StripRightAround(x: string, post: string, cs: set<char>)
    requires forall k :: 0 <= k < |post| ==> post[k] in cs
    requires x == [] || x[|x| - 1] !in cs
    ensures StripRight(x + post, cs) == x
    decreases |post|
  {
    if post != [] {
      var p := post[..|post| - 1];
      assert (x + post)[..|x + post| - 1] == x + p;
      StripRightAround(x, p, cs);
    } else {
      assert x + post == x;
    }
  }

  /** Stripping removes exactly the surrounding characters of `cs` and keeps the text between them. */
  lemma StripAround(pre: string, x: string, post: string, cs: set<char>)
    requires forall k :: 0 <= k < |pre| ==> pre[k] in cs
    requires forall k :: 0 <= k < |post| ==> post[k] in cs
    requires x != [] && x[0] !in cs && x[|x| - 1] !in cs
    ensures Strip(pre + x + post, cs) == x
  {
    AppendAssoc(pre, x, post);
    StripLeftAround(pre, x + post, cs);
    StripRightAround(x, post, cs);
  }

  /** A text with no strippable character at either end is its own strip. */
  lemma StripNothing(x: string, cs: set<char>)
    requires x != [] && x[0] !in cs && x[|x| - 1] !in cs
    ensures Strip(x, cs) == x
  {
    StripAround([], x, [], cs);
    AppendEmpty(x);
  }

  /** Visible ASCII characters are not whitespace. */
  lemma VisibleNotSpace(s: string)
    requires forall i :: 0 <= i < |s| ==> '!' <= s[i] <= '~'
    ensures forall i :: 0 <= i < |s| ==> s[i] !in Whitespace
  {
  }

  /** Stripping twice is stripping once. */
  lemma StripIdempotent(s: string, cs: set<char>)
    ensures Strip(Strip(s, cs), cs) == Strip(s, cs)
  {
    var t := Strip(s, cs);
    if t != [] {
      StripAround([], t, [], cs);
      AppendEmpty(t);
    }
  }

  /** Python's `sub in s`. */
  predicate Contains(s: string, sub: string)
    decreases |s|
  {
    |sub| <= |s| && (s[..|sub|] == sub || Contains(s[1..], sub))
  }

  lemma {:induction false} ContainsInSuffix(s: string, k: nat, sub: string)
    requires k <= |s| && Contains(s[k..], sub)
    ensures Contains(s, sub)
    decreases k
  {
    if k > 0 {
      assert s[1..][k - 1..] == s[k..];
      ContainsInSuffix(s[1..], k - 1, sub);
    }
  }

  /** `s.replace(pat, rep)`: every non-overlapping occurrence of `pat`, scanning
      from the left, is replaced by `rep`. */
  function ReplaceAll(s: string, pat: string, rep: string): string
    requires |pat| > 0
    decreases |s|
  {
    if |s| < |pat| then s
    else if s[..|pat|] == pat then rep + ReplaceAll(s[|pat|..], pat, rep)
    else [s[0]] + ReplaceAll(s[1..], pat, rep)
  }

  /** A character where no occurrence starts is copied as it is. */
  lemma ReplaceStep(c: char, s: string, pat: string, rep: string)
    requires |pat| > 0
    requires |s| + 1 < |pat| || ([c] + s)[..|pat|] != pat
    ensures ReplaceAll([c] + s, pat, rep) == [c] + ReplaceAll(s, pat, rep)
  {
    assert ([c] + s)[1..] == s;
  }

  /** Text without the pattern's first character is copied as it is. */
  lemma {:induction false} ReplaceSkip(a: string, b: string, pat: string, rep: string)
    requires |pat| > 0
    requires forall k :: 0 <= k < |a| ==> a[k] != pat[0]
    ensures ReplaceAll(a + b, pat, rep) == a + ReplaceAll(b, pat, rep)
    decreases |a|
  {
    if a != [] {
      assert a + b == [a[0]] + (a[1..] + b);
      ReplaceStep(a[0], a[1..] + b, pat, rep);
      ReplaceSkip(a[1..], b, pat, rep);
      AppendAssoc([a[0]], a[1..], ReplaceAll(b, pat, rep));
      assert [a[0]] + a[1..] == a;
    } else {
      assert a + b == b;
    }
  }
  /** A character that starts no match, then characters unlike the pattern's
      first one, all pass through unchanged. */
  lemma ReplaceStepSkip(c: char, a: string, b: string, pat: string, rep: string)
    requires |pat| > 0
    requires forall k :: 0 <= k < |a| ==> a[k] != pat[0]
    requires |a + b| + 1 < |pat| || ([c] + (a + b))[..|pat|] != pat
    ensures ReplaceAll([c] + (a + b), pat, rep) == [c] + (a + ReplaceAll(b, pat, rep))
  {
    ReplaceStep(c, a + b, pat, rep);
    ReplaceSkip(a, b, pat, rep);
  }


  /** The first occurrence, after text without the pattern's first character,
      is replaced. */
  lemma ReplaceHead(a: string, b: string, pat: string, rep: string)
    requires |pat| > 0
    requires forall k :: 0 <= k < |a| ==> a[k] != pat[0]
    ensures ReplaceAll(a + pat + b, pat, rep) == a + rep + ReplaceAll(b, pat, rep)
  {
    var t := pat + b;
    AppendAssoc(a, pat, b);
    ReplaceSkip(a, t, pat, rep);
    assert t[..|pat|] == pat && t[|pat|..] == b;
    AppendAssoc(a, rep, ReplaceAll(b, pat, rep));
  }

  /** A prefix of the rewritten text in which the replacement's first character
      does not occur was copied unchanged from the input. */
  lemma {:induction false} ReplacePrefixUnchanged(s: string, pat: string, rep: string, m: nat)
    requires |pat| > 0 && |rep| > 0
    requires m <= |ReplaceAll(s, pat, rep)|
    requires forall k :: 0 <= k < m ==> ReplaceAll(s, pat, rep)[k] != rep[0]
    ensures m <= |s| && ReplaceAll(s, pat, rep)[..m] == s[..m]
    decreases |s|
  {
    var x := ReplaceAll(s, pat, rep);
    if |s| < |pat| {
    } else if s[..|pat|] == pat {
      assert x[0] == rep[0];
    } else if m > 0 {
      var y := ReplaceAll(s[1..], pat, rep);
      assert x == [s[0]] + y;
      forall k | 0 <= k < m - 1
        ensures y[k] != rep[0]
      {
        assert y[k] == x[k + 1];
      }
      ReplacePrefixUnchanged(s[1..], pat, rep, m - 1);
      assert x[..m] == [s[0]] + y[..m - 1];
      assert s[..m] == [s[0]] + s[1..][..m - 1];
    }
  }

  /** When the one-character replacement does not occur in the pattern, no
      occurrence of the pattern survives the rewrite. */
  lemma {:induction false} ReplaceRemovesPattern(s: string, pat: string, rep: string)
    requires |pat| > 0 && |rep| == 1 && rep[0] !in pat
    ensures !Contains(ReplaceAll(s, pat, rep), pat)
    decreases |s|
  {
    var x := ReplaceAll(s, pat, rep);
    if |s| < |pat| {
    } else if s[..|pat|] == pat {
      var y := ReplaceAll(s[|pat|..], pat, rep);
      ReplaceRemovesPattern(s[|pat|..], pat, rep);
      assert x == rep + y && x[1..] == y;
    } else {
      var y := ReplaceAll(s[1..], pat, rep);
      ReplaceRemovesPattern(s[1..], pat, rep);
      assert x == [s[0]] + y && x[1..] == y;
      if |pat| <= |x| && x[..|pat|] == pat {
        forall k | 0 <= k < |pat| - 1
          ensures y[k] != rep[0]
        {
          assert y[k] == x[k + 1] == pat[k + 1];
        }
        assert x[..|pat|] == [s[0]] + y[..|pat| - 1];
        assert s[..|pat|] == [s[0]] + s[1..][..|pat| - 1];
        ReplacePrefixUnchanged(s[1..], pat, rep, |pat| - 1);
        assert false;
      }
    }
  }

  /** Rewriting text in which the pattern does not occur changes nothing. */
  lemma {:induction false} ReplaceAbsent(s: string, pat: string, rep: string)
    requires |pat| > 0 && !Contains(s, pat)
    ensures ReplaceAll(s, pat, rep) == s
    decreases |s|
  {
    if |s| >= |pat| {
      ReplaceAbsent(s[1..], pat, rep);
      assert s == [s[0]] + s[1..];
    }
  }

  /** An occurrence, in the rewritten text, of a string that avoids the
      one-character replacement was already an occurrence in the input. */
  lemma {:induction false} ReplaceCreatesNothing(s: string, pat: string, rep: string, q: string)
    requires |pat| > 0 && |rep| == 1 && rep[0] !in q
    requires Contains(ReplaceAll(s, pat, rep), q)
    ensures Contains(s, q)
    decreases |s|
  {
    var x := ReplaceAll(s, pat, rep);
    if |s| < |pat| {
    } else if s[..|pat|] == pat {
      var y := ReplaceAll(s[|pat|..], pat, rep);
      assert x == rep + y && x[1..] == y;
      if |q| == 0 {
        assert s[..0] == q;
      } else if x[..|q|] == q {
        assert false;
      } else {
        ReplaceCreatesNothing(s[|pat|..], pat, rep, q);
        ContainsInSuffix(s, |pat|, q);
      }
    } else {
      var y := ReplaceAll(s[1..], pat, rep);
      assert x == [s[0]] + y && x[1..] == y;
      if |q| == 0 {
        assert s[..0] == q;
      } else if x[..|q|] == q {
        forall k | 0 <= k < |q| - 1
          ensures y[k] != rep[0]
        {
          assert y[k] == x[k + 1] == q[k + 1];
        }
        ReplacePrefixUnchanged(s[1..], pat, rep, |q| - 1);
        assert x[..|q|] == [s[0]] + y[..|q| - 1];
        assert s[..|q|] == [s[0]] + s[1..][..|q| - 1];
      } else {
        ReplaceCreatesNothing(s[1..], pat, rep, q);
      }
    }
  }

  /** The ASCII case mapping of Python's `str.lower()`. */
  function LowerChar(c: char): char
  {
    if 'A' <= c <= 'Z' then (c as int + 32) as char else c
  }

  function Lower(s: string): (r: string)
    ensures |r| == |s|
    ensures forall i :: 0 <= i < |r| ==> !('A' <= r[i] <= 'Z')
    ensures forall i :: 0 <= i < |s| && !('A' <= s[i] <= 'Z') ==> r[i] == s[i]
    ensures forall i :: 0 <= i < |s| && 'A' <= s[i] <= 'Z' ==> r[i] as int == s[i] as int + 32
  {
    seq(|s|, i requires 0 <= i < |s| => LowerChar(s[i]))
  }

  /** Lower-casing twice is lower-casing once. */
  lemma LowerIdempotent(s: string)
    ensures Lower(Lower(s)) == Lower(s)
  {
    var t := Lower(s);
    assert forall i :: 0 <= i < |t| ==> Lower(t)[i] == t[i];
  }
}
