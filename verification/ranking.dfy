/** The selection rules of `get_recommendations` (recommender.py, lines
    94-123): the cold start by article score and the warm path that drops
    the liked ids and orders the rest by a similarity key. */
module Ranking {
  import opened Articles
  import opened Sorting
  import Batch
  import Vocabulary

  /** No element occurs twice. */
  ghost predicate Distinct(s: seq<int>) {
    forall i, j :: 0 <= i < j < |s| ==> s[i] != s[j]
  }

  /** The position of the first occurrence of `x`. */
  function FirstIndex(s: seq<int>, x: int): (i: nat)
    requires x in s
    ensures i < |s| && s[i] == x
    ensures forall j :: 0 <= j < i ==> s[j] != x
  {
    if s[0] == x then 0 else 1 + FirstIndex(s[1..], x)
  }

  /** The keys of a dict filled from `s` in order (lines 111-119): each value
      once, where it first occurs. */
  function Dedupe(s: seq<int>): (r: seq<int>)
    ensures forall x :: x in r <==> x in s
    ensures Distinct(r)
    ensures |r| <= |s|
  {
    if |s| == 0 then []
    else
      var init := s[..|s| - 1];
      var p := Dedupe(init);
      assert forall x :: x in s <==> x in init || x == s[|s| - 1] by {
        assert s == init + [s[|s| - 1]];
      }
      if s[|s| - 1] in init then p else p + [s[|s| - 1]]
  }

  lemma {:induction false} FirstIndexOfExtension(s: seq<int>, x: int, y: int)
    requires x in s
    ensures FirstIndex(s + [y], x) == FirstIndex(s, x)
    decreases |s|
  {
    if s[0] != x {
      assert (s + [y])[1..] == s[1..] + [y];
      FirstIndexOfExtension(s[1..], x, y);
    }
  }

  /** The dict keeps first-occurrence order: its keys are listed in the order
      in which each first appears in `s`. */
  lemma {:induction false} DedupeKeepsFirstOrder(s: seq<int>)
    ensures forall i, j :: 0 <= i < j < |Dedupe(s)| ==> FirstIndex(s, Dedupe(s)[i]) < FirstIndex(s, Dedupe(s)[j])
    decreases |s|
  {
    if |s| > 0 {
      var init := s[..|s| - 1];
      var last := s[|s| - 1];
      var p := Dedupe(init);
      DedupeKeepsFirstOrder(init);
      assert s == init + [last];
      forall x | x in p ensures FirstIndex(s, x) == FirstIndex(init, x) && FirstIndex(init, x) < |init| {
        FirstIndexOfExtension(init, x, last);
      }
      if last !in init {
        assert FirstIndex(s, last) == |init|;
      }
    }
  }

  /** Ids that are already distinct pass through the dict unchanged. */
  lemma {:induction false} DedupeOfDistinct(s: seq<int>)
    requires Distinct(s)
    ensures Dedupe(s) == s
    decreases |s|
  {
    if |s| > 0 {
      var init := s[..|s| - 1];
      assert Distinct(init);
      DedupeOfDistinct(init);
      assert s[|s| - 1] !in init;
      assert s == init + [s[|s| - 1]];
    }
  }

  /** `articles_df[~articles_df['id'].isin(liked_ids)]` (line 108): the rows
      whose id is not liked, in row order. */
  function Candidates(rows: seq<Article>, liked: seq<int>): (c: seq<Article>)
    ensures |c| <= |rows|
  {
    if |rows| == 0 then []
    else (if rows[0].id in liked then [] else [rows[0]]) + Candidates(rows[1..], liked)
  }

  /** A row is a candidate exactly when it is one of the rows and its id is
      not liked. */
  lemma {:induction false} CandidatesMembers(rows: seq<Article>, liked: seq<int>)
    ensures forall a :: a in Candidates(rows, liked) <==> a in rows && a.id !in liked
    decreases |rows|
  {
    if |rows| > 0 {
      CandidatesMembers(rows[1..], liked);
      assert rows == [rows[0]] + rows[1..];
    }
  }

  /** A single row is kept exactly when its id is not liked. */
  lemma CandidatesOfOne(r: Article, liked: seq<int>)
    ensures Candidates([r], liked) == if r.id in liked then [] else [r]
  {
    assert [r][1..] == [];
  }

  /** The filter works row by row: filtering two runs of rows one after the
      other is filtering each and joining the results, so the kept rows stay
      in row order, each as often as it occurs. */
  lemma {:induction false} CandidatesAppend(a: seq<Article>, b: seq<Article>, liked: seq<int>)
    ensures Candidates(a + b, liked) == Candidates(a, liked) + Candidates(b, liked)
    decreases |a|
  {
    if |a| > 0 {
      assert (a + b)[0] == a[0];
      assert (a + b)[1..] == a[1..] + b;
      CandidatesAppend(a[1..], b, liked);
    } else {
      assert a + b == b;
    }
  }

  /** The `score` column as a sort key. */
  function Score(a: Article): int { a.score }

  /** Line 98: the rows by descending score, cut to `n` as `head(n)` cuts. */
  function TopByScore(rows: seq<Article>, n: int): (top: seq<Article>)
    ensures n >= 0 ==> |top| == Min(n, |rows|)
    ensures |top| <= |rows|
  {
    Prefix(SortDesc(rows, Score), n)
  }

  /** In a sorted sequence nothing after position `m` has a key above
      anything before it. */
  lemma CutTop<T>(t: seq<T>, m: nat, key: T -> int)
    requires m <= |t| && SortedDesc(t, key)
    ensures forall j, i :: m <= j < |t| && 0 <= i < m ==> key(t[j]) <= key(t[i])
  {
  }

  /** A leading cut of a sorted sequence is sorted, is part of the whole,
      and whatever it leaves out has a key no higher than anything it keeps. */
  lemma CutOfSorted<T>(t: seq<T>, m: nat, key: T -> int)
    requires m <= |t| && SortedDesc(t, key)
    ensures SortedDesc(t[..m], key)
    ensures multiset(t[..m]) <= multiset(t)
    ensures forall a, b :: a in multiset(t) - multiset(t[..m]) && b in t[..m] ==> key(a) <= key(b)
  {
    var front, back := t[..m], t[m..];
    assert t == front + back;
    assert multiset(t) - multiset(front) == multiset(back);
    CutTop(t, m, key);
    forall a, b | a in multiset(back) && b in front ensures key(a) <= key(b) {
      var j :| 0 <= j < |back| && back[j] == a;
      var i :| 0 <= i < m && front[i] == b;
      assert t[m + j] == a && t[i] == b;
    }
  }

  /** The cold start keeps `min(n, N)` rows for `n >= 0` (all but the last
      `-n` for negative `n`), by non-increasing score, taken from the input
      rows, and no row left out scores above a row kept. Ties may come in
      any order: the contract does not fix one. */
  lemma TopByScoreSpec(rows: seq<Article>, n: int)
    ensures n >= 0 ==> |TopByScore(rows, n)| == Min(n, |rows|)
    ensures n < 0 ==> |TopByScore(rows, n)| == Max(0, |rows| + n)
    ensures SortedDesc(TopByScore(rows, n), Score)
    ensures multiset(TopByScore(rows, n)) <= multiset(rows)
    ensures forall a, b :: a in multiset(rows) - multiset(TopByScore(rows, n)) && b in TopByScore(rows, n) ==>
      a.score <= b.score
  {
    var t := SortDesc(rows, Score);
    var sel := TopByScore(rows, n);
    assert sel == t[..|sel|];
    CutOfSorted(t, |sel|, Score);
  }

  /** Line 98 in full: the ids of the top rows by score. */
  function ColdStart(rows: seq<Article>, n: int): (ids: seq<int>)
    ensures n >= 0 ==> |ids| == Min(n, |rows|)
    ensures |ids| <= |rows|
  {
    Ids(TopByScore(rows, n))
  }

  /** The ids the warm path ranks: each candidate id once, in first-occurrence
      row order. */
  function Pool(rows: seq<Article>, liked: seq<int>): (pool: seq<int>)
    ensures |pool| <= |rows|
  {
    Dedupe(Ids(Candidates(rows, liked)))
  }

  /** Line 122: the pool stably sorted by descending similarity and cut to
      `n`. */
  function WarmPath(rows: seq<Article>, liked: seq<int>, n: int, sim: int -> int): (r: seq<int>)
    ensures n >= 0 ==> |r| == Min(n, |Pool(rows, liked)|)
    ensures |r| <= |Pool(rows, liked)|
  {
    Prefix(SortDesc(Pool(rows, liked), sim), n)
  }

  /** An id is in the pool exactly when some row has it and it is not
      liked. */
  lemma PoolMembers(rows: seq<Article>, liked: seq<int>)
    ensures forall x :: x in Pool(rows, liked) <==> x in Ids(rows) && x !in liked
  {
    CandidatesMembers(rows, liked);
    var cands := Candidates(rows, liked);
    var ids, all := Ids(cands), Ids(rows);
    forall x | x in ids ensures x in all && x !in liked {
      var i :| 0 <= i < |cands| && ids[i] == x;
      assert cands[i] in cands;
      var j :| 0 <= j < |rows| && rows[j] == cands[i];
      assert all[j] == x;
    }
    forall x | x in all && x !in liked ensures x in ids {
      var j :| 0 <= j < |rows| && all[j] == x;
      assert rows[j] in rows;
      var i :| 0 <= i < |cands| && cands[i] == rows[j];
      assert ids[i] == x;
    }
  }

  /** The warm path never returns a liked id, returns only ids of the given
      rows, and never returns an id twice. */
  lemma WarmPathExcludesLiked(rows: seq<Article>, liked: seq<int>, n: int, sim: int -> int)
    ensures forall x :: x in WarmPath(rows, liked, n, sim) ==> x !in liked && x in Ids(rows)
    ensures Distinct(WarmPath(rows, liked, n, sim))
  {
    var pool := Pool(rows, liked);
    var t := SortDesc(pool, sim);
    var r := WarmPath(rows, liked, n, sim);
    assert r == t[..|r|];
    PoolMembers(rows, liked);
    forall x | x in r ensures x in pool {
      assert x in multiset(t);
    }
    DistinctOfPermutation(pool, t);
  }

  /** The warm path returns `min(n, C)` ids for `n >= 0`, where `C` is the
      number of distinct candidate ids, and never more than `C`. */
  lemma WarmPathLength(rows: seq<Article>, liked: seq<int>, n: int, sim: int -> int)
    ensures n >= 0 ==> |WarmPath(rows, liked, n, sim)| == Min(n, |Pool(rows, liked)|)
    ensures |WarmPath(rows, liked, n, sim)| <= |Pool(rows, liked)|
    ensures |Pool(rows, liked)| <= |rows|
  {
  }

  /** The warm path is sorted by non-increasing similarity, and within every
      similarity value it holds a leading run of the pool's ids with that
      value, in row order. */
  lemma WarmPathOrder(rows: seq<Article>, liked: seq<int>, n: int, sim: int -> int)
    ensures SortedDesc(WarmPath(rows, liked, n, sim), sim)
    ensures forall k :: KeyClass(WarmPath(rows, liked, n, sim), sim, k) <= KeyClass(Pool(rows, liked), sim, k)
  {
    var pool := Pool(rows, liked);
    var t := SortDesc(pool, sim);
    var r := WarmPath(rows, liked, n, sim);
    assert r == t[..|r|];
    forall k ensures KeyClass(r, sim, k) <= KeyClass(pool, sim, k) {
      KeyClassOfPrefix(t, |r|, sim, k);
      SortDescStable(pool, sim, k);
    }
  }

  /** No candidate the warm path leaves out is more similar than one it
      keeps. */
  lemma WarmPathTop(rows: seq<Article>, liked: seq<int>, n: int, sim: int -> int)
    ensures forall x, y :: (x in Pool(rows, liked) && x !in WarmPath(rows, liked, n, sim)
      && y in WarmPath(rows, liked, n, sim)) ==> sim(x) <= sim(y)
  {
    var pool := Pool(rows, liked);
    var t := SortDesc(pool, sim);
    var r := WarmPath(rows, liked, n, sim);
    var m := |r|;
    assert r == t[..m];
    CutTop(t, m, sim);
    forall x, y | x in pool && x !in r && y in r ensures sim(x) <= sim(y) {
      assert x in multiset(t);
      var j :| 0 <= j < |t| && t[j] == x;
      var i :| 0 <= i < m && r[i] == y;
    }
  }

  lemma DistinctOfPermutation(s: seq<int>, t: seq<int>)
    requires Distinct(s) && multiset(s) == multiset(t)
    ensures Distinct(t)
  {
    forall i, j | 0 <= i < j < |t| ensures t[i] != t[j] {
      if t[i] == t[j] {
        var x := t[i];
        assert t == t[..i] + [x] + t[i + 1..j] + [x] + t[j + 1..];
        assert multiset(t)[x] >= 2;
        DistinctCount(s, x);
        assert false;
      }
    }
  }

  lemma {:induction false} DistinctCount(s: seq<int>, x: int)
    requires Distinct(s)
    ensures multiset(s)[x] <= 1
    decreases |s|
  {
    if |s| > 0 {
      assert s == [s[0]] + s[1..];
      DistinctCount(s[1..], x);
      if s[0] == x {
        assert x !in s[1..];
      }
    }
  }

  lemma {:induction false} IdsOfSubMultiset(sel: seq<Article>, rows: seq<Article>)
    requires multiset(sel) <= multiset(rows)
    ensures forall x :: x in Ids(sel) ==> x in Ids(rows)
  {
    forall x | x in Ids(sel) ensures x in Ids(rows) {
      var i :| 0 <= i < |sel| && Ids(sel)[i] == x;
      assert sel[i] in multiset(rows);
      var j :| 0 <= j < |rows| && rows[j] == sel[i];
      assert Ids(rows)[j] == x;
    }
  }

  /** `get_recommendations(articles_df, liked_ids, top_n)` (lines 94-123),
      with the cosine similarity to the liked profile given as `sim`. The
      cold start leaves the recommender state alone. The warm path first
      computes embeddings as lines 74-83 do: the model is built if there is
      none, and then every title is tokenized. */
  function Recommend(s: Batch.Session, rows: seq<Article>, liked: seq<int>, n: int, sim: int -> int)
    : (res: (Batch.Session, seq<int>))
    ensures |liked| == 0 ==> res.0 == s
    ensures |liked| > 0 ==> res.0.table.Some? && (s.table.Some? ==> res.0.table == s.table)
    ensures Vocabulary.Extends(s.vocab, res.0.vocab)
    ensures forall x :: x in res.1 ==> x !in liked && x in Ids(rows)
    ensures n >= 0 ==> |res.1| <= n
    ensures |res.1| <= |rows|
  {
    if |liked| == 0 then
      TopByScoreSpec(rows, n);
      IdsOfSubMultiset(TopByScore(rows, n), rows);
      (s, ColdStart(rows, n))
    else
      WarmPathExcludesLiked(rows, liked, n, sim);
      Batch.EncodeListsGrows(s.vocab, Batch.WordLists(Titles(rows)));
      (Batch.EmbedBatchAsWritten(s, Titles(rows)).0, WarmPath(rows, liked, n, sim))
  }

  /** No two rows share an id. */
  ghost predicate UniqueIds(rows: seq<Article>) {
    forall i, j :: 0 <= i < j < |rows| ==> rows[i].id != rows[j].id
  }

  lemma {:induction false} CandidatesKeepUniqueIds(rows: seq<Article>, liked: seq<int>)
    requires UniqueIds(rows)
    ensures UniqueIds(Candidates(rows, liked))
    decreases |rows|
  {
    if |rows| > 0 {
      var tail := rows[1..];
      assert UniqueIds(tail) by {
        forall i, j | 0 <= i < j < |tail| ensures tail[i].id != tail[j].id {
          assert tail[i] == rows[i + 1] && tail[j] == rows[j + 1];
        }
      }
      CandidatesKeepUniqueIds(tail, liked);
      var rest := Candidates(tail, liked);
      if rows[0].id !in liked {
        CandidatesMembers(tail, liked);
        forall a | a in rest ensures a.id != rows[0].id {
          var j :| 0 <= j < |tail| && tail[j] == a;
          assert rows[j + 1] == a;
        }
        var c := [rows[0]] + rest;
        assert Candidates(rows, liked) == c;
        forall i, j | 0 <= i < j < |c| ensures c[i].id != c[j].id {
          assert c[j] == rest[j - 1];
          if i == 0 {
            assert c[j] in rest;
          } else {
            assert c[i] == rest[i - 1];
          }
        }
      }
    }
  }

  /** When article ids are unique, as the feed delivers them, the pool is
      just the candidate ids in row order. */
  lemma PoolOfUniqueIds(rows: seq<Article>, liked: seq<int>)
    requires UniqueIds(rows)
    ensures Pool(rows, liked) == Ids(Candidates(rows, liked))
  {
    CandidatesKeepUniqueIds(rows, liked);
    DedupeOfDistinct(Ids(Candidates(rows, liked)));
  }

  /** Line 90 gives every article the same embedding, so every candidate
      gets the same similarity; then the stable sort keeps the pool as it
      is and the warm path returns the first `n` candidates in row order. */
  lemma WarmPathUniformSimilarity(rows: seq<Article>, liked: seq<int>, n: int, sim: int -> int)
    requires forall x, y :: sim(x) == sim(y)
    ensures WarmPath(rows, liked, n, sim) == Prefix(Pool(rows, liked), n)
  {
    SortDescUnique(Pool(rows, liked), Pool(rows, liked), sim);
  }

  /** Three articles scored 100, 50 and 10. */
  const Example: seq<Article> := [
    Article(1, "rust is fast", 100, 0),
    Article(2, "go is simple", 50, 0),
    Article(3, "python is slow", 10, 0)]

  /** The example rows already stand in descending score order. */
  lemma ExampleSortedByScore()
    ensures SortDesc(Example, Score) == Example
  {
    assert SortedDesc(Example, Score);
    SortDescUnique(Example, Example, Score);
  }

  /** With no likes and `top_n = 2` the two best-scored ids come back. */
  lemma ColdStartExample()
    ensures ColdStart(Example, 2) == [1, 2]
  {
    assert TopByScore(Example, 2) == Example[..2] by {
      ExampleSortedByScore();
    }
    assert Ids(Example[..2]) == [1, 2] by {
      var top := Example[..2];
      assert Ids(top)[0] == 1 && Ids(top)[1] == 2;
    }
  }

  /** When no row is liked every row is a candidate. */
  lemma {:induction false} CandidatesNoneLiked(rows: seq<Article>, liked: seq<int>)
    requires forall i :: 0 <= i < |rows| ==> rows[i].id !in liked
    ensures Candidates(rows, liked) == rows
    decreases |rows|
  {
    if |rows| > 0 {
      CandidatesNoneLiked(rows[1..], liked);
    }
  }

  lemma ExamplePoolLiked1()
    ensures Pool(Example, [1]) == [2, 3]
  {
    var rest := Example[1..];
    assert Candidates(Example, [1]) == rest by {
      CandidatesNoneLiked(rest, [1]);
    }
    assert Ids(rest) == [2, 3] by {
      assert Ids(rest)[0] == 2 && Ids(rest)[1] == 3;
    }
    assert Dedupe([2, 3]) == [2, 3] by {
      DedupeOfDistinct([2, 3]);
    }
  }

  lemma ExamplePoolAbsent()
    ensures Pool(Example, [999]) == [1, 2, 3]
  {
    assert Candidates(Example, [999]) == Example by {
      CandidatesNoneLiked(Example, [999]);
    }
    assert Ids(Example) == [1, 2, 3] by {
      assert Ids(Example)[0] == 1 && Ids(Example)[1] == 2 && Ids(Example)[2] == 3;
    }
    assert Dedupe([1, 2, 3]) == [1, 2, 3] by {
      DedupeOfDistinct([1, 2, 3]);
    }
  }

  /** Liking article 1 with `top_n = 1` returns one id, 2 or 3, whatever the
      similarity. */
  lemma WarmExample(sim: int -> int)
    ensures |WarmPath(Example, [1], 1, sim)| == 1
    ensures WarmPath(Example, [1], 1, sim)[0] in {2, 3}
  {
    ExamplePoolLiked1();
    var pool := Pool(Example, [1]);
    assert pool == [2, 3];
    var t := SortDesc(pool, sim);
    assert t[0] in multiset(pool);
  }

  /** Every candidate equally similar, as line 90's shared embedding makes
      them when a liked id names an article. */
  function Uniform(x: int): int { 0 }

  /** Three articles listed out of score order. */
  const Mixed: seq<Article> := [
    Article(1, "rust is fast", 50, 0),
    Article(2, "go is simple", 10, 0),
    Article(3, "python is slow", 100, 0)]

  lemma MixedPoolLiked1()
    ensures Pool(Mixed, [1]) == [2, 3]
  {
    var rest := Mixed[1..];
    assert Candidates(Mixed, [1]) == rest by {
      CandidatesNoneLiked(rest, [1]);
    }
    assert Ids(rest) == [2, 3] by {
      assert Ids(rest)[0] == 2 && Ids(rest)[1] == 3;
    }
    assert Dedupe([2, 3]) == [2, 3] by {
      DedupeOfDistinct([2, 3]);
    }
  }

  lemma MixedColdStart()
    ensures ColdStart(Mixed, 1) == [3]
  {
    var top := TopByScore(Mixed, 1);
    TopByScoreSpec(Mixed, 1);
    assert |top| == 1;
    assert top[0] in multiset(Mixed);
    if top[0] != Mixed[2] {
      assert false;
    }
    assert Ids(top)[0] == 3;
  }

  /** A liked article sends the request down the warm path, where the equal
      similarities the program gives keep the candidates in row order; the
      cold start ranks the same rows by score. */
  lemma LikedRanksByRowOrder(s: Batch.Session)
    ensures Recommend(s, Mixed, [1], 1, Uniform).1 == [2]
    ensures Recommend(s, Mixed, [], 1, Uniform).1 == [3]
  {
    assert WarmPath(Mixed, [1], 1, Uniform) == [2] by {
      WarmPathUniformSimilarity(Mixed, [1], 1, Uniform);
      MixedPoolLiked1();
    }
    MixedColdStart();
  }

  /** Only the warm path builds the model: from a fresh state, a liked id
      that names no article leaves behind the table sized from the empty
      vocabulary (100 rows), while no likes leave the state untouched. */
  lemma AbsentLikeBuildsModel(rows: seq<Article>, n: int, sim: int -> int)
    ensures Recommend(Batch.Fresh, rows, [999], n, sim).0.table == Batch.InitModel(Batch.Fresh).table
    ensures Recommend(Batch.Fresh, rows, [], n, sim).0 == Batch.Fresh
  {
    Batch.AsWrittenFirstTableIs100(Titles(rows));
  }
}
