/** The top-3 highlight (run_regression.py `_highlight_top3`, lines 40-44):
    the rows with the largest citation counts, at most three, largest first,
    an earlier row before a later one with the same count. The selection is
    a stable descending sort of the row positions followed by a prefix. */
module Selection {

  /** Row `a` ranks before row `b`: more citations, or as many and earlier. */
  predicate Before(xs: seq<real>, a: nat, b: nat)
    requires a < |xs| && b < |xs|
  {
    xs[a] > xs[b] || (xs[a] == xs[b] && a < b)
  }

  predicate ValidPositions(xs: seq<real>, s: seq<nat>)
  {
    forall p :: 0 <= p < |s| ==> s[p] < |xs|
  }

  /** Positions listed strictly in rank order (hence without repeats). */
  predicate Ranked(xs: seq<real>, s: seq<nat>)
    requires ValidPositions(xs, s)
  {
    forall p, q :: 0 <= p < q < |s| ==> Before(xs, s[p], s[q])
  }

  /** Insert row `i` into a ranked list at its place. */
  function Insert(xs: seq<real>, i: nat, s: seq<nat>): (r: seq<nat>)
    requires i < |xs| && ValidPositions(xs, s)
    ensures |r| == |s| + 1 && ValidPositions(xs, r)
    ensures forall x :: x in r <==> x == i || x in s
  {
    if s == [] then [i]
    else if Before(xs, i, s[0]) then [i] + s
    else [s[0]] + Insert(xs, i, s[1..])
  }

  /** The first `n` rows in rank order. */
  function Ranking(xs: seq<real>, n: nat): (r: seq<nat>)
    requires n <= |xs|
    ensures |r| == n && ValidPositions(xs, r)
    ensures forall x: int :: x in r <==> 0 <= x < n
  {
    if n == 0 then []
    else
      var prev := Ranking(xs, n - 1);
      var r := Insert(xs, n - 1, prev);
      assert forall x :: x in r <==> x == n - 1 || x in prev;
      r
  }

  function Min(a: nat, b: nat): nat
  {
    if a <= b then a else b
  }

  /** `nlargest(k, ...)`: the first `min(k, n)` rows in rank order. */
  function NLargest(xs: seq<real>, k: nat): seq<nat>
  {
    Ranking(xs, |xs|)[..Min(k, |xs|)]
  }

  /** The rows `_highlight_top3` marks, by position: none for an empty
      table, else `nlargest(min(3, len(df)), "total_citations")`. */
  function Top3(citations: seq<real>): (top: seq<nat>)
    ensures |top| == Min(3, |citations|) && ValidPositions(citations, top)
  {
    if |citations| == 0 then [] else NLargest(citations, Min(3, |citations|))
  }

  // ---------------------------------------------------------------------
  // Specification of a bounded stable selection

  /** `s` lists `k` rows of `xs` in rank order, and no row left out ranks
      before any row listed. */
  predicate IsTopK(xs: seq<real>, k: nat, s: seq<nat>)
  {
    && |s| == k
    && ValidPositions(xs, s)
    && Ranked(xs, s)
    && (forall p, u :: 0 <= p < |s| && 0 <= u < |xs| && u !in s ==> Before(xs, s[p], u))
  }

  lemma {:induction false} InsertRanked(xs: seq<real>, i: nat, s: seq<nat>)
    requires i < |xs| && ValidPositions(xs, s) && Ranked(xs, s) && i !in s
    ensures Ranked(xs, Insert(xs, i, s))
  {
    if s != [] && !Before(xs, i, s[0]) {
      InsertRanked(xs, i, s[1..]);
      var rest := Insert(xs, i, s[1..]);
      forall q | 0 <= q < |rest| ensures Before(xs, s[0], rest[q]) {
        if rest[q] != i {
          assert rest[q] in s[1..];
        }
      }
    }
  }

  /** The ranking of all rows is a permutation of the rows in rank order. */
  lemma {:induction false} RankingRanked(xs: seq<real>, n: nat)
    requires n <= |xs|
    ensures Ranked(xs, Ranking(xs, n))
  {
    if n > 0 {
      RankingRanked(xs, n - 1);
      InsertRanked(xs, n - 1, Ranking(xs, n - 1));
    }
  }

  /** The selection meets the specification. */
  lemma NLargestIsTopK(xs: seq<real>, k: nat)
    ensures IsTopK(xs, Min(k, |xs|), NLargest(xs, k))
  {
    var all := Ranking(xs, |xs|);
    RankingRanked(xs, |xs|);
    var m := Min(k, |xs|);
    var s := all[..m];
    forall p, u | 0 <= p < |s| && 0 <= u < |xs| && u !in s ensures Before(xs, s[p], u) {
      assert u in all;
      var q :| 0 <= q < |all| && all[q] == u;
      assert forall q' :: 0 <= q' < m ==> all[q'] in s;
      assert s[p] == all[p];
    }
  }

  /** In a top-k list, the entry at `p` ranks before every row not listed
      ahead of it. */
  lemma NextIsBest(xs: seq<real>, k: nat, s: seq<nat>, p: nat, u: nat)
    requires IsTopK(xs, k, s) && p < k && u < |xs| && u !in s[..p]
    ensures u == s[p] || Before(xs, s[p], u)
  {
    if u in s {
      var q :| 0 <= q < k && s[q] == u;
      assert forall q' :: 0 <= q' < p ==> s[q'] in s[..p];
      if q != p {
        assert Before(xs, s[p], s[q]);
      }
    }
  }

  lemma {:induction false} TopKPrefix(xs: seq<real>, k: nat, s: seq<nat>, t: seq<nat>, p: nat)
    requires IsTopK(xs, k, s) && IsTopK(xs, k, t) && p <= k
    ensures s[..p] == t[..p]
  {
    if p > 0 {
      TopKPrefix(xs, k, s, t, p - 1);
      var a, b := s[p - 1], t[p - 1];
      assert forall q :: 0 <= q < p - 1 ==> Before(xs, s[q], a);
      assert forall q :: 0 <= q < p - 1 ==> Before(xs, t[q], b);
      assert a !in s[..p - 1] && b !in t[..p - 1];
      NextIsBest(xs, k, s, p - 1, b);
      NextIsBest(xs, k, t, p - 1, a);
      assert s[..p] == s[..p - 1] + [a];
      assert t[..p] == t[..p - 1] + [b];
    }
  }

  /** The specification admits one selection only. */
  lemma TopKUnique(xs: seq<real>, k: nat, s: seq<nat>, t: seq<nat>)
    requires IsTopK(xs, k, s) && IsTopK(xs, k, t)
    ensures s == t
  {
    TopKPrefix(xs, k, s, t, k);
    assert s == s[..k] && t == t[..k];
  }

  /** What the highlight promises: an empty table highlights nothing; else
      `min(3, n)` distinct rows of the table, by non-increasing citations, a
      tie going to the earlier row, and no row left out has more citations
      than a row highlighted. */
  lemma Top3Properties(xs: seq<real>)
    ensures |xs| == 0 ==> Top3(xs) == []
    ensures |Top3(xs)| == Min(3, |xs|)
    ensures var top := Top3(xs);
      && (forall p :: 0 <= p < |top| ==> top[p] < |xs|)
      && (forall p, q :: 0 <= p < q < |top| ==> top[p] != top[q])
      && (forall p, q :: 0 <= p < q < |top| ==> xs[top[p]] >= xs[top[q]])
      && (forall p, q :: 0 <= p < q < |top| && xs[top[p]] == xs[top[q]] ==> top[p] < top[q])
      && (forall p, u :: 0 <= p < |top| && 0 <= u < |xs| && u !in top ==> xs[u] <= xs[top[p]])
      && (forall p, u :: 0 <= p < |top| && 0 <= u < |xs| && u !in top && xs[u] == xs[top[p]] ==> top[p] < u)
  {
    if |xs| > 0 {
      NLargestIsTopK(xs, Min(3, |xs|));
    }
  }

  /** The worked example: citations 10, 50, 50, 5, 100 highlight the rows
      with 100, then the two rows with 50 in their original order. */
  lemma Top3Example()
    ensures Top3([10.0, 50.0, 50.0, 5.0, 100.0]) == [4, 1, 2]
  {
    var xs := [10.0, 50.0, 50.0, 5.0, 100.0];
    NLargestIsTopK(xs, 3);
    var t := [4, 1, 2];
    assert IsTopK(xs, 3, t) by {
      assert forall u :: 0 <= u < |xs| && u !in t ==> u == 0 || u == 3;
    }
    TopKUnique(xs, 3, Top3(xs), t);
  }
}
