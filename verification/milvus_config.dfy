/** The pure helpers of milvus_config.py: converting a sparse TF-IDF map to a dense
    vector over a word list and back, the word-to-position map, and the `nlist`
    sizing rule of the vector index.

    A Python dict is iterated in insertion order, which these helpers do not control;
    the loops over `tfidf_dict.items()` therefore take that order as a parameter
    `order`, a duplicate-free listing of the map's keys (`IsIterationOrder`). The
    lemmas show where the result does and does not depend on it. numpy's float32
    storage is modelled as exact reals. */
module MilvusConfig {
  import opened Results

  /** `np.zeros(n)`. */
  function Zeros(n: nat): (r: seq<real>)
    ensures |r| == n
    ensures forall i :: 0 <= i < n ==> r[i] == 0.0
  {
    seq(n, _ => 0.0)
  }

  predicate Distinct<T(==)>(s: seq<T>)
  {
    forall i, j :: 0 <= i < j < |s| ==> s[i] != s[j]
  }

  /** `order` lists every key of `d` exactly once: a possible iteration order of the dict. */
  predicate IsIterationOrder(order: seq<string>, d: map<string, real>)
  {
    Distinct(order) && (forall w :: w in order ==> w in d) && (forall w :: w in d ==> w in order)
  }

  /** `all_words.index(word)`: the first position holding `w`. */
  function IndexOf(words: seq<string>, w: string): (r: nat)
    requires w in words
    ensures r < |words| && words[r] == w
    ensures forall j :: 0 <= j < r ==> words[j] != w
  {
    if words[0] == w then 0 else 1 + IndexOf(words[1..], w)
  }

  /** `dict_to_vector`: a zero vector as long as the word list, with each key's value
      written at the key's first position in the list; keys outside the list are dropped.
      The keys are visited in `order`. */
  function DictToVector(d: map<string, real>, words: seq<string>, order: seq<string>): (r: seq<real>)
    requires forall w :: w in order ==> w in d
    ensures |r| == |words|
  {
    if |order| == 0 then Zeros(|words|)
    else
      var v := DictToVector(d, words, order[..|order| - 1]);
      var w := order[|order| - 1];
      if w in words then v[IndexOf(words, w) := d[w]] else v
  }

  /** The value `dict_to_vector` leaves at position `i` once the keys in `done` have
      been written. */
  function Placed(d: map<string, real>, words: seq<string>, done: seq<string>, i: nat): real
    requires i < |words|
    requires forall w :: w in done ==> w in d
  {
    if words[i] in done && IndexOf(words, words[i]) == i then d[words[i]] else 0.0
  }

  /** Position `i` of `dict_to_vector` holds the value of the word at `i` when that is
      the word's first position and the word was visited, and 0 otherwise, whatever
      order distinct keys were visited in. */
  lemma {:induction false} DictToVectorPlaces(d: map<string, real>, words: seq<string>, order: seq<string>)
    requires forall w :: w in order ==> w in d
    requires Distinct(order)
    ensures forall i :: 0 <= i < |words| ==> DictToVector(d, words, order)[i] == Placed(d, words, order, i)
  {
    if |order| > 0 {
      var prefix := order[..|order| - 1];
      var w := order[|order| - 1];
      assert forall u :: u in prefix ==> u in order;
      DictToVectorPlaces(d, words, prefix);
      assert w !in prefix;
      forall i | 0 <= i < |words|
        ensures DictToVector(d, words, order)[i] == Placed(d, words, order, i)
      {
        assert words[i] in order <==> words[i] in prefix || words[i] == w;
      }
    }
  }

  /** For a full iteration order of the dict, `dict_to_vector` is fixed by the dict
      alone: position `i` holds `d[all_words[i]]` exactly when that word is a key and
      `i` is its first position. */
  lemma DictToVectorSpec(d: map<string, real>, words: seq<string>, order: seq<string>)
    requires IsIterationOrder(order, d)
    ensures forall i :: 0 <= i < |words| ==>
      DictToVector(d, words, order)[i] ==
        if words[i] in d && IndexOf(words, words[i]) == i then d[words[i]] else 0.0
  {
    DictToVectorPlaces(d, words, order);
  }

  /** The dict's iteration order does not change the vector. */
  lemma DictToVectorOrderFree(d: map<string, real>, words: seq<string>, order1: seq<string>, order2: seq<string>)
    requires IsIterationOrder(order1, d) && IsIterationOrder(order2, d)
    ensures DictToVector(d, words, order1) == DictToVector(d, words, order2)
  {
    DictToVectorSpec(d, words, order1);
    DictToVectorSpec(d, words, order2);
  }

  /** A numpy index is valid for length `n` when it lies in [-n, n). */
  predicate InBounds(idx: int, n: nat)
  {
    -(n as int) <= idx < n
  }

  /** The position a valid numpy index names: negative indices count from the end. */
  function Wrap(idx: int, n: nat): (r: nat)
    requires InBounds(idx, n)
    ensures r < n
    ensures r == idx || r == idx + n
  {
    if idx < 0 then idx + n else idx
  }

  /** `dict_to_vector_optimized`: a zero vector of length `len(word_to_idx)`, with each
      mapped key's value written at its mapped index. An index numpy rejects raises
      IndexError. */
  function DictToVectorOptimized(d: map<string, real>, wordToIdx: map<string, int>, order: seq<string>): (r: Result<seq<real>>)
    requires forall w :: w in order ==> w in d
    ensures r.Ok? <==> forall w :: w in order && w in wordToIdx ==> InBounds(wordToIdx[w], |wordToIdx|)
    ensures r.Err? ==> r.error == IndexError
    ensures r.Ok? ==> |r.value| == |wordToIdx|
  {
    if |order| == 0 then Ok(Zeros(|wordToIdx|))
    else
      var prefix := order[..|order| - 1];
      var w := order[|order| - 1];
      assert forall u :: u in order <==> u in prefix || u == w;
      match DictToVectorOptimized(d, wordToIdx, prefix)
      case Err(e) => Err(e)
      case Ok(v) =>
        if w !in wordToIdx then Ok(v)
        else if !InBounds(wordToIdx[w], |wordToIdx|) then Err(IndexError)
        else Ok(v[Wrap(wordToIdx[w], |wordToIdx|) := d[w]])
  }

  /** No two visited keys are sent to the same position. */
  ghost predicate InjectiveOn(wordToIdx: map<string, int>, keys: seq<string>)
  {
    forall u, w ::
      (u in keys && w in keys && u in wordToIdx && w in wordToIdx && u != w &&
       InBounds(wordToIdx[u], |wordToIdx|) && InBounds(wordToIdx[w], |wordToIdx|)) ==>
        Wrap(wordToIdx[u], |wordToIdx|) != Wrap(wordToIdx[w], |wordToIdx|)
  }

  /** With valid, collision-free indices every mapped key's value sits at its index and
      every other position is 0. */
  lemma {:induction false} DictToVectorOptimizedPlaces(d: map<string, real>, wordToIdx: map<string, int>, order: seq<string>)
    requires forall w :: w in order ==> w in d
    requires forall w :: w in order && w in wordToIdx ==> InBounds(wordToIdx[w], |wordToIdx|)
    requires InjectiveOn(wordToIdx, order)
    ensures var r := DictToVectorOptimized(d, wordToIdx, order);
      r.Ok? &&
      (forall w :: w in order && w in wordToIdx ==> r.value[Wrap(wordToIdx[w], |wordToIdx|)] == d[w]) &&
      (forall i :: 0 <= i < |wordToIdx| && (forall w :: w in order && w in wordToIdx ==> Wrap(wordToIdx[w], |wordToIdx|) != i) ==>
        r.value[i] == 0.0)
  {
    if |order| > 0 {
      var prefix := order[..|order| - 1];
      var last := order[|order| - 1];
      assert forall u :: u in order <==> u in prefix || u == last;
      DictToVectorOptimizedPlaces(d, wordToIdx, prefix);
    }
  }

  /** `create_word_to_idx_mapping`: each word mapped to its position; a repeated word
      keeps its last position, since later pairs of the comprehension overwrite earlier ones. */
  function WordToIdx(words: seq<string>): (r: map<string, int>)
    ensures forall w :: w in r <==> w in words
    ensures forall w :: w in r ==>
      0 <= r[w] < |words| && words[r[w]] == w && forall j :: r[w] < j < |words| ==> words[j] != w
  {
    if |words| == 0 then map[]
    else
      var prefix := words[..|words| - 1];
      assert forall u :: u in words <==> u in prefix || u == words[|words| - 1];
      WordToIdx(prefix)[words[|words| - 1] := |words| - 1]
  }

  /** For distinct words the mapping sends the word at `i` to `i` and has one entry per word. */
  lemma {:induction false} WordToIdxDistinct(words: seq<string>)
    requires Distinct(words)
    ensures forall i :: 0 <= i < |words| ==> WordToIdx(words)[words[i]] == i
    ensures |WordToIdx(words)| == |words|
  {
    if |words| > 0 {
      var prefix := words[..|words| - 1];
      WordToIdxDistinct(prefix);
      assert words[|words| - 1] !in prefix;
      assert words[|words| - 1] !in WordToIdx(prefix);
    }
  }

  /** With distinct words both conversions agree: the index map gives the same vector as
      searching the word list, for any visiting order. */
  lemma {:induction false} OptimizedAgrees(d: map<string, real>, words: seq<string>, order: seq<string>)
    requires forall w :: w in order ==> w in d
    requires Distinct(words)
    ensures DictToVectorOptimized(d, WordToIdx(words), order) == Ok(DictToVector(d, words, order))
  {
    WordToIdxDistinct(words);
    if |order| > 0 {
      var w := order[|order| - 1];
      OptimizedAgrees(d, words, order[..|order| - 1]);
      if w in words {
        var i := IndexOf(words, w);
        assert WordToIdx(words)[words[i]] == i;
      }
    }
  }

  /** A repeated word makes the index map shorter than the word list, so the optimized
      conversion can index past its own vector: for the words `a, a, b` the map is
      `{a: 1, b: 2}` of length 2, and a dict holding `b` raises IndexError where
      `dict_to_vector` succeeds. */
  lemma DuplicateWordsOverflow()
    ensures DictToVectorOptimized(map["b" := 1.0], WordToIdx(["a", "a", "b"]), ["b"]) == Err(IndexError)
  {
    var m := WordToIdx(["a", "a", "b"]);
    DuplicateWordsMapping();
    assert ["b"][..0] == [];
    assert DictToVectorOptimized(map["b" := 1.0], m, []) == Ok(Zeros(2));
    assert !InBounds(m["b"], |m|);
  }

  /** On the same input `dict_to_vector` writes the value at the first position of `b`. */
  lemma DuplicateWordsPlain()
    ensures DictToVector(map["b" := 1.0], ["a", "a", "b"], ["b"]) == [0.0, 0.0, 1.0]
  {
    var words := ["a", "a", "b"];
    assert IndexOf(words, "b") == 2 by {
      assert words[1..] == ["a", "b"] && words[1..][1..] == ["b"];
    }
    assert ["b"][..0] == [];
    assert DictToVector(map["b" := 1.0], words, []) == [0.0, 0.0, 0.0];
  }

  lemma DuplicateWordsMapping()
    ensures WordToIdx(["a", "a", "b"]) == map["a" := 1, "b" := 2]
  {
    var words := ["a", "a", "b"];
    assert words[..2] == ["a", "a"] && ["a", "a"][..1] == ["a"] && ["a"][..0] == [];
    assert WordToIdx(["a"]) == map["a" := 0];
    assert WordToIdx(["a", "a"]) == map["a" := 1];
  }

  /** The default `threshold` of `vector_to_dict`, 1e-8. */
  const DefaultThreshold: real := 0.00000001

  /** `vector_to_dict`: pairs each word with the value at its position, as `zip` does (up
      to the shorter sequence), and keeps the pairs whose value exceeds the threshold. */
  function VectorToDict(vec: seq<real>, words: seq<string>, threshold: real): (r: map<string, real>)
    ensures forall w :: w in r ==> w in words && r[w] > threshold
    ensures forall w :: w in r <==> LastKept(vec, words, threshold, ZipLength(vec, words), w) >= 0
    ensures forall w :: w in r ==> r[w] == vec[LastKept(vec, words, threshold, ZipLength(vec, words), w)]
  {
    VectorToDictUpTo(vec, words, threshold, ZipLength(vec, words))
  }

  /** The number of pairs `zip` produces. */
  function ZipLength<A, B>(xs: seq<A>, ys: seq<B>): (n: nat)
    ensures n <= |xs| && n <= |ys| && (n == |xs| || n == |ys|)
  {
    if |xs| <= |ys| then |xs| else |ys|
  }

  /** The last of the first `n` positions that holds `w` with a value above the
      threshold, or -1 when there is none. */
  function LastKept(vec: seq<real>, words: seq<string>, threshold: real, n: nat, w: string): (i: int)
    requires n <= |vec| && n <= |words|
    ensures -1 <= i < n
    ensures i >= 0 ==> words[i] == w && vec[i] > threshold
    ensures forall j :: i < j < n && words[j] == w ==> vec[j] <= threshold
  {
    if n == 0 then -1
    else if words[n - 1] == w && vec[n - 1] > threshold then n - 1
    else LastKept(vec, words, threshold, n - 1, w)
  }

  /** The dict comprehension over the first `n` pairs of the zip: a word is kept when
      some position holding it has a value above the threshold, and a later kept pair
      overwrites an earlier one. */
  function VectorToDictUpTo(vec: seq<real>, words: seq<string>, threshold: real, n: nat): (r: map<string, real>)
    requires n <= |vec| && n <= |words|
    ensures forall w :: w in r <==> LastKept(vec, words, threshold, n, w) >= 0
    ensures forall w :: w in r ==> r[w] == vec[LastKept(vec, words, threshold, n, w)]
    ensures forall w :: w in r ==> w in words && r[w] > threshold
  {
    if n == 0 then map[]
    else
      var m := VectorToDictUpTo(vec, words, threshold, n - 1);
      if vec[n - 1] > threshold then m[words[n - 1] := vec[n - 1]] else m
  }

  /** Round trip: for a non-negative threshold, converting a map to a vector and back
      gives the map cut down to its listed words with values above the threshold. A
      repeated word comes back with its first position's value, since its later copies
      stay 0. A negative threshold would also keep the zero slots of unmatched words. */
  lemma RoundTrip(d: map<string, real>, words: seq<string>, order: seq<string>, t: real)
    requires IsIterationOrder(order, d)
    requires t >= 0.0
    ensures VectorToDict(DictToVector(d, words, order), words, t) ==
      map w | w in d && w in words && d[w] > t :: d[w]
  {
    var r := VectorToDict(DictToVector(d, words, order), words, t);
    forall w | w in r
      ensures w in d && w in words && d[w] > t && r[w] == d[w]
    {
      RoundTripKept(d, words, order, t, w);
    }
    forall w | w in d && w in words && d[w] > t
      ensures w in r
    {
      RoundTripComplete(d, words, order, t, w);
    }
  }

  /** The round trip with `vector_to_dict`'s default threshold drops exactly the listed
      weights of at most 1e-8. */
  lemma RoundTripDefault(d: map<string, real>, words: seq<string>, order: seq<string>)
    requires IsIterationOrder(order, d)
    ensures VectorToDict(DictToVector(d, words, order), words, DefaultThreshold) ==
      map w | w in d && w in words && d[w] > DefaultThreshold :: d[w]
  {
    RoundTrip(d, words, order, DefaultThreshold);
  }

  lemma RoundTripKept(d: map<string, real>, words: seq<string>, order: seq<string>, t: real, w: string)
    requires IsIterationOrder(order, d)
    requires t >= 0.0
    requires w in VectorToDict(DictToVector(d, words, order), words, t)
    ensures w in d && w in words && d[w] > t
    ensures VectorToDict(DictToVector(d, words, order), words, t)[w] == d[w]
  {
    var v := DictToVector(d, words, order);
    DictToVectorSpec(d, words, order);
    assert v[LastKept(v, words, t, |words|, w)] > t;
  }

  lemma RoundTripComplete(d: map<string, real>, words: seq<string>, order: seq<string>, t: real, w: string)
    requires IsIterationOrder(order, d)
    requires w in d && w in words && d[w] > t
    ensures w in VectorToDict(DictToVector(d, words, order), words, t)
  {
    var v := DictToVector(d, words, order);
    DictToVectorSpec(d, words, order);
    assert v[IndexOf(words, w)] == d[w];
    assert LastKept(v, words, t, |words|, w) >= IndexOf(words, w);
  }

  /** The `nlist` of the IVF_FLAT index: one list per 50 dimensions, clamped to
      [16, 128]. Python's `//` floors, as Dafny's `/` does for a positive divisor. */
  function Nlist(vectorDim: int): (r: int)
    ensures 16 <= r <= 128
    ensures 800 <= vectorDim < 6450 ==> r * 50 <= vectorDim < r * 50 + 50
    ensures vectorDim < 800 ==> r == 16
    ensures vectorDim >= 6400 ==> r == 128
  {
    var q := vectorDim / 50;
    var lower := if 16 >= q then 16 else q;
    if 128 <= lower then 128 else lower
  }

  /** A larger vector never gets fewer lists. */
  lemma NlistMonotone(dim1: int, dim2: int)
    requires dim1 <= dim2
    ensures Nlist(dim1) <= Nlist(dim2)
  {
    assert dim1 / 50 <= dim2 / 50;
  }
}
