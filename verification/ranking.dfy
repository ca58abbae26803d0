/** The scoring half of tfidf.py: cosine similarity of two sparse weight maps and
    the stable top-k ranking of a corpus against a query.

    `math.sqrt` is the parameter `sqrt`; weights are exact reals. */
module Ranking {
  import opened Numerics

  /** `sum(vec1[w] * vec2[w] for w in common_words)`: the dot product, taken over
      the words the two maps share. */
  ghost function Dot(a: map<string, real>, b: map<string, real>): real
  {
    Sum(map w | w in a.Keys * b.Keys :: a[w] * b[w])
  }

  /** `sum(val**2 for val in vec.values())`: the squared Euclidean norm of the whole map. */
  ghost function SquaredNorm(a: map<string, real>): real
  {
    Sum(map w | w in a :: a[w] * a[w])
  }

  /** `cosine_similarity`: the dot product over the product of the norms, or zero
      when either norm is zero. */
  ghost function CosineSimilarity(sqrt: real -> real, a: map<string, real>, b: map<string, real>): (r: real)
    ensures sqrt(SquaredNorm(a)) == 0.0 || sqrt(SquaredNorm(b)) == 0.0 ==> r == 0.0
    ensures sqrt(SquaredNorm(a)) != 0.0 && sqrt(SquaredNorm(b)) != 0.0 ==>
      r * (sqrt(SquaredNorm(a)) * sqrt(SquaredNorm(b))) == Dot(a, b)
  {
    var norm1 := sqrt(SquaredNorm(a));
    var norm2 := sqrt(SquaredNorm(b));
    if norm1 == 0.0 || norm2 == 0.0 then 0.0
    else
      ProductNonZero(norm1, norm2);
      Dot(a, b) / (norm1 * norm2)
  }

  lemma ProductNonZero(x: real, y: real)
    requires x != 0.0 && y != 0.0
    ensures x * y != 0.0
  {
  }

  /** The dot product does not depend on the order of its arguments. */
  lemma DotSymmetric(a: map<string, real>, b: map<string, real>)
    ensures Dot(a, b) == Dot(b, a)
  {
    assert (map w | w in a.Keys * b.Keys :: a[w] * b[w]) == (map w | w in b.Keys * a.Keys :: b[w] * a[w]);
  }

  /** Cosine similarity is symmetric. */
  lemma CosineSymmetric(sqrt: real -> real, a: map<string, real>, b: map<string, real>)
    ensures CosineSimilarity(sqrt, a, b) == CosineSimilarity(sqrt, b, a)
  {
    DotSymmetric(a, b);
    var norm1 := sqrt(SquaredNorm(a));
    var norm2 := sqrt(SquaredNorm(b));
    assert norm1 * norm2 == norm2 * norm1;
  }

  /** All weights non-negative. */
  ghost predicate NonNegative(a: map<string, real>)
  {
    forall w :: w in a ==> a[w] >= 0.0
  }

  /** The squared norm is never negative, and it is zero when every weight of the map
      is zero (the empty map included). */
  lemma NormOfZeroMap(a: map<string, real>)
    ensures SquaredNorm(a) >= 0.0
    ensures (forall w :: w in a ==> a[w] == 0.0) ==> SquaredNorm(a) == 0.0
  {
    var squares := map w | w in a :: a[w] * a[w];
    forall w | w in squares
      ensures squares[w] >= 0.0
    {
      SquareNonNegative(a[w]);
    }
    SumNonNegative(squares);
    if forall w :: w in a ==> a[w] == 0.0 {
      assert squares == map w | w in a :: 0.0;
    }
  }

  lemma SquareNonNegative(x: real)
    ensures x * x >= 0.0
  {
  }

  /** A map whose weights are all zero (or which is empty) is similar to nothing. */
  lemma CosineOfZeroMap(sqrt: real -> real, a: map<string, real>, b: map<string, real>)
    requires SqrtLaws(sqrt)
    requires forall w :: w in a ==> a[w] == 0.0
    ensures CosineSimilarity(sqrt, a, b) == 0.0
    ensures CosineSimilarity(sqrt, b, a) == 0.0
  {
    NormOfZeroMap(a);
  }

  /** The similarity of non-negative weight maps is non-negative. */
  lemma CosineNonNegative(sqrt: real -> real, a: map<string, real>, b: map<string, real>)
    requires SqrtLaws(sqrt)
    requires NonNegative(a) && NonNegative(b)
    ensures CosineSimilarity(sqrt, a, b) >= 0.0
  {
    var products := map w | w in a.Keys * b.Keys :: a[w] * b[w];
    forall w | w in products
      ensures products[w] >= 0.0
    {
      ProductNonNegative(a[w], b[w]);
    }
    SumNonNegative(products);
    NormOfZeroMap(a);
    NormOfZeroMap(b);
    var norm1 := sqrt(SquaredNorm(a));
    var norm2 := sqrt(SquaredNorm(b));
    if norm1 != 0.0 && norm2 != 0.0 {
      QuotientNonNegative(Dot(a, b), norm1, norm2);
    }
  }

  lemma ProductNonNegative(x: real, y: real)
    requires x >= 0.0 && y >= 0.0
    ensures x * y >= 0.0
  {
  }

  lemma QuotientNonNegative(d: real, x: real, y: real)
    requires d >= 0.0 && x > 0.0 && y > 0.0
    ensures d / (x * y) >= 0.0
  {
    assert x * y > 0.0;
  }

  /** Words that only one side has do not contribute: two maps without a common
      word have similarity zero, whatever their weights. */
  lemma CosineDisjoint(sqrt: real -> real, a: map<string, real>, b: map<string, real>)
    requires a.Keys !! b.Keys
    ensures Dot(a, b) == 0.0
    ensures CosineSimilarity(sqrt, a, b) == 0.0
  {
    DotDisjoint(a, b);
    CosineOfZeroDot(sqrt, a, b);
  }

  /** A zero dot product gives a zero similarity, whatever the norms. */
  lemma CosineOfZeroDot(sqrt: real -> real, a: map<string, real>, b: map<string, real>)
    requires Dot(a, b) == 0.0
    ensures CosineSimilarity(sqrt, a, b) == 0.0
  {
    var norm1 := sqrt(SquaredNorm(a));
    var norm2 := sqrt(SquaredNorm(b));
    if norm1 != 0.0 && norm2 != 0.0 {
      ProductNonZero(norm1, norm2);
      ZeroQuotient(norm1 * norm2);
    }
  }

  lemma DotDisjoint(a: map<string, real>, b: map<string, real>)
    requires a.Keys !! b.Keys
    ensures Dot(a, b) == 0.0
  {
    assert (map w | w in a.Keys * b.Keys :: a[w] * b[w]) == map[];
  }

  lemma ZeroQuotient(x: real)
    requires x != 0.0
    ensures 0.0 / x == 0.0
  {
  }

  /** A map whose squared norm is non-zero is perfectly similar to itself. */
  lemma CosineSelf(sqrt: real -> real, a: map<string, real>)
    requires SqrtSquares(sqrt)
    requires SquaredNorm(a) != 0.0
    ensures CosineSimilarity(sqrt, a, a) == 1.0
  {
    assert (map w | w in a.Keys * a.Keys :: a[w] * a[w]) == map w | w in a :: a[w] * a[w];
    NormOfZeroMap(a);
    var n := sqrt(SquaredNorm(a));
    assert n * n == SquaredNorm(a);
    if n == 0.0 {
      ZeroSquare(n);
      assert false;
    }
    SelfQuotient(n, SquaredNorm(a));
  }

  lemma ZeroSquare(n: real)
    requires n == 0.0
    ensures n * n == 0.0
  {
  }

  lemma SelfQuotient(n: real, s: real)
    requires s != 0.0 && n * n == s
    ensures s / (n * n) == 1.0
  {
    DivideBySelf(s);
  }

  /** One `(i, score)` pair of the list `ranking` builds and sorts. */
  datatype Scored = Scored(index: nat, score: real)

  /** The order the stable descending sort leaves the pairs in: higher score first,
      and on equal scores the earlier document first. */
  predicate Before(x: Scored, y: Scored)
  {
    x.score > y.score || (x.score == y.score && x.index < y.index)
  }

  /** Every pair comes strictly before every later one. */
  predicate Ranked(s: seq<Scored>)
  {
    forall i, j :: 0 <= i < j < |s| ==> Before(s[i], s[j])
  }

  /** Indices strictly increase along the list, as `enumerate` produces them. */
  predicate IndexOrdered(s: seq<Scored>)
  {
    forall i, j :: 0 <= i < j < |s| ==> s[i].index < s[j].index
  }

  lemma BeforeTransitive(x: Scored, y: Scored, z: Scored)
    requires Before(x, y) && Before(y, z)
    ensures Before(x, z)
  {
  }

  /** Places `x` ahead of the first pair it comes before. */
  function Insert(x: Scored, s: seq<Scored>): (r: seq<Scored>)
    ensures |r| == |s| + 1
    ensures multiset(r) == multiset(s) + multiset{x}
  {
    if |s| == 0 then [x]
    else if Before(x, s[0]) then [x] + s
    else
      assert s == [s[0]] + s[1..];
      [s[0]] + Insert(x, s[1..])
  }

  /** Inserting a pair with a smaller index than all the others into a ranked list
      keeps it ranked: on a tie the new, earlier pair goes first. */
  lemma {:induction false} InsertRanked(x: Scored, s: seq<Scored>)
    requires Ranked(s)
    requires forall y | y in s :: x.index < y.index
    ensures Ranked(Insert(x, s))
  {
    if |s| == 0 {
    } else if Before(x, s[0]) {
      forall j | 0 <= j < |s|
        ensures Before(x, s[j])
      {
        if j > 0 {
          BeforeTransitive(x, s[0], s[j]);
        }
      }
    } else {
      assert s == [s[0]] + s[1..];
      var rest := Insert(x, s[1..]);
      InsertRanked(x, s[1..]);
      forall j | 0 <= j < |rest|
        ensures Before(s[0], rest[j])
      {
        assert rest[j] in multiset(rest);
        if rest[j] != x {
          var k :| 1 <= k < |s| && s[k] == rest[j];
        }
      }
    }
  }

  /** The stable sort of `scores.sort(key=lambda x: x[1], reverse=True)`, written as an
      insertion sort: a stable sort's output is fixed by its input, so the algorithm
      chosen does not matter (see `RankedUnique`). */
  function SortDesc(s: seq<Scored>): (r: seq<Scored>)
    ensures |r| == |s|
    ensures multiset(r) == multiset(s)
  {
    if |s| == 0 then []
    else
      assert s == [s[0]] + s[1..];
      Insert(s[0], SortDesc(s[1..]))
  }

  /** Sorting pairs that arrive in index order leaves them ranked. */
  lemma {:induction false} SortRanked(s: seq<Scored>)
    requires IndexOrdered(s)
    ensures Ranked(SortDesc(s))
  {
    if |s| > 0 {
      assert s == [s[0]] + s[1..];
      var rest := SortDesc(s[1..]);
      SortRanked(s[1..]);
      forall y | y in rest
        ensures s[0].index < y.index
      {
        assert y in multiset(rest);
        assert y in multiset(s[1..]);
      }
      InsertRanked(s[0], rest);
    }
  }

  /** Two ranked lists holding the same pairs are the same list, so every stable
      descending sort of index-ordered pairs agrees with `SortDesc`. */
  lemma {:induction false} RankedUnique(r1: seq<Scored>, r2: seq<Scored>)
    requires Ranked(r1) && Ranked(r2)
    requires multiset(r1) == multiset(r2)
    ensures r1 == r2
  {
    if |r1| == 0 {
      assert |multiset(r2)| == 0;
    } else {
      assert |r2| == |multiset(r2)| == |r1|;
      RankedHeadsAgree(r1, r2);
      MultisetTail(r1);
      MultisetTail(r2);
      RankedUnique(r1[1..], r2[1..]);
    }
  }

  /** Two non-empty ranked lists with the same pairs start with the same pair: each
      head comes before every other pair of the other list. */
  lemma RankedHeadsAgree(r1: seq<Scored>, r2: seq<Scored>)
    requires Ranked(r1) && Ranked(r2)
    requires multiset(r1) == multiset(r2)
    requires |r1| > 0 && |r2| > 0
    ensures r1[0] == r2[0]
  {
    assert r1[0] in multiset(r2);
    assert r2[0] in multiset(r1);
    var k :| 0 <= k < |r2| && r2[k] == r1[0];
    var m :| 0 <= m < |r1| && r1[m] == r2[0];
  }

  lemma MultisetTail(s: seq<Scored>)
    requires |s| > 0
    ensures multiset(s[1..]) == multiset(s) - multiset{s[0]}
  {
    assert s == [s[0]] + s[1..];
    assert multiset(s) == multiset{s[0]} + multiset(s[1..]);
  }

  /** `scores[:top_k]`: Python's slice, which for a negative bound drops that many
      pairs from the end instead of returning nothing. */
  function SliceTo<T>(s: seq<T>, k: int): (r: seq<T>)
    ensures |r| == if k >= 0 then Min(k, |s|) else Max(0, |s| + k)
    ensures r <= s
  {
    if k >= 0 then s[..Min(k, |s|)] else s[..Max(0, |s| + k)]
  }

  function Min(a: int, b: int): int
  {
    if a <= b then a else b
  }

  function Max(a: int, b: int): int
  {
    if a >= b then a else b
  }

  /** The `(i, cosine_similarity(query, tfidf_list[i]))` pairs, in document order. */
  ghost function Scores(sqrt: real -> real, query: map<string, real>, docs: seq<map<string, real>>): (r: seq<Scored>)
    ensures |r| == |docs|
    ensures forall i :: 0 <= i < |r| ==> r[i] == Scored(i, CosineSimilarity(sqrt, query, docs[i]))
  {
    seq(|docs|, i requires 0 <= i < |docs| => Scored(i, CosineSimilarity(sqrt, query, docs[i])))
  }

  /** `ranking`: the documents by decreasing similarity to the query, ties in document
      order, cut by `top_k` with Python slice semantics. */
  ghost function Ranking(sqrt: real -> real, query: map<string, real>, docs: seq<map<string, real>>, topK: int): (r: seq<Scored>)
    ensures |r| == if topK >= 0 then Min(topK, |docs|) else Max(0, |docs| + topK)
  {
    SliceTo(SortDesc(Scores(sqrt, query, docs)), topK)
  }

  /** Every returned pair names a document of the list and carries that document's
      similarity to the query. */
  lemma RankingScores(sqrt: real -> real, query: map<string, real>, docs: seq<map<string, real>>, topK: int)
    ensures var r := Ranking(sqrt, query, docs, topK);
      forall i :: 0 <= i < |r| ==>
        r[i].index < |docs| && r[i].score == CosineSimilarity(sqrt, query, docs[r[i].index])
  {
    var scores := Scores(sqrt, query, docs);
    var sorted := SortDesc(scores);
    var r := Ranking(sqrt, query, docs, topK);
    forall i | 0 <= i < |r|
      ensures r[i].index < |docs| && r[i].score == CosineSimilarity(sqrt, query, docs[r[i].index])
    {
      assert r[i] == sorted[i];
      assert sorted[i] in multiset(scores);
    }
  }

  /** The returned pairs are ranked: scores never increase, equal scores keep document
      order, and no document is returned twice. */
  lemma RankingOrdered(sqrt: real -> real, query: map<string, real>, docs: seq<map<string, real>>, topK: int)
    ensures Ranked(Ranking(sqrt, query, docs, topK))
    ensures var r := Ranking(sqrt, query, docs, topK);
      forall i, j :: 0 <= i < j < |r| ==> r[i].score >= r[j].score && r[i].index != r[j].index
  {
    var scores := Scores(sqrt, query, docs);
    SortRanked(scores);
    RankingScores(sqrt, query, docs, topK);
  }

  /** A document left out of the result does not come before the last one kept. */
  lemma RankingOmitted(sqrt: real -> real, query: map<string, real>, docs: seq<map<string, real>>, topK: int, d: nat)
    requires d < |docs|
    requires var r := Ranking(sqrt, query, docs, topK);
      |r| > 0 && forall i :: 0 <= i < |r| ==> r[i].index != d
    ensures var r := Ranking(sqrt, query, docs, topK);
      Before(r[|r| - 1], Scored(d, CosineSimilarity(sqrt, query, docs[d])))
    ensures var r := Ranking(sqrt, query, docs, topK);
      CosineSimilarity(sqrt, query, docs[d]) <= r[|r| - 1].score
  {
    var scores := Scores(sqrt, query, docs);
    var sorted := SortDesc(scores);
    SortRanked(scores);
    var r := Ranking(sqrt, query, docs, topK);
    assert scores[d] in multiset(sorted);
    var p :| 0 <= p < |sorted| && sorted[p] == scores[d];
    assert r[|r| - 1] == sorted[|r| - 1];
  }
}
