/** The weighting half of tfidf.py: term counts, term frequency, document
    frequency and inverse document frequency, and their product.

    Weights are exact reals; `math.log` is the parameter `ln`. */
module Tfidf {
  import opened Results
  import opened Numerics
  import opened Tokenizer

  /** The number of occurrences of every token, built one token at a time as the
      loop in `create_vocab_single` does. */
  function CountTokens(tokens: seq<string>): (counts: map<string, nat>)
    ensures counts.Keys == set t | t in tokens
    ensures forall w :: w in counts ==> counts[w] == multiset(tokens)[w]
    decreases |tokens|
  {
    if |tokens| == 0 then map[]
    else
      var prefix := tokens[..|tokens| - 1];
      var w := tokens[|tokens| - 1];
      assert tokens == prefix + [w];
      var prev := CountTokens(prefix);
      prev[w := (if w in prev then prev[w] else 0) + 1]
  }

  /** The counts as reals. */
  function AsReals(counts: map<string, int>): (r: map<string, real>)
    ensures r.Keys == counts.Keys
    ensures forall w :: w in r ==> r[w] == counts[w] as real
  {
    map w | w in counts :: counts[w] as real
  }

  /** `sum(word_dict.values())`, as a real. */
  ghost function Total(counts: map<string, int>): real
  {
    Sum(AsReals(counts))
  }

  /** One more occurrence of a word adds one to the total. */
  lemma TotalIncrement(prev: map<string, int>, w: string)
    ensures Total(prev[w := (if w in prev then prev[w] else 0) + 1]) == Total(prev) + 1.0
  {
    var before := AsReals(prev);
    AsRealsUpdate(prev, w, (if w in prev then prev[w] else 0) + 1);
    SumUpdate(before, w, (if w in before then before[w] else 0.0) + 1.0);
  }

  lemma AsRealsUpdate(counts: map<string, int>, w: string, n: int)
    ensures AsReals(counts[w := n]) == AsReals(counts)[w := n as real]
  {
  }

  /** The counts add up to the number of tokens. */
  lemma {:induction false} CountsTotal(tokens: seq<string>)
    ensures Total(CountTokens(tokens)) == |tokens| as real
    decreases |tokens|
  {
    if |tokens| != 0 {
      var prefix := tokens[..|tokens| - 1];
      var w := tokens[|tokens| - 1];
      var prev := CountTokens(prefix);
      CountsTotal(prefix);
      assert CountTokens(tokens) == prev[w := (if w in prev then prev[w] else 0) + 1];
      TotalIncrement(prev, w);
    } else {
      assert AsReals(CountTokens(tokens)) == map[];
    }
  }

  /** `create_vocab_single`: the term counts of one document. */
  function CreateVocabSingle(cc: CharClasses, doc: string): (counts: map<string, nat>)
    ensures counts.Keys == set t | t in CreateTokensSingle(cc, doc)
    ensures forall w :: w in counts ==> counts[w] >= 1
    ensures Total(counts) == |CreateTokensSingle(cc, doc)| as real
  {
    var tokens := CreateTokensSingle(cc, doc);
    CountsTotal(tokens);
    CountTokens(tokens)
  }

  /** `create_vocab_all`: the term counts of every document, in corpus order. */
  function CreateVocabAll(cc: CharClasses, corpus: seq<string>): (all: seq<map<string, nat>>)
    ensures |all| == |corpus|
    ensures forall i :: 0 <= i < |corpus| ==> all[i] == CreateVocabSingle(cc, corpus[i])
  {
    if |corpus| == 0 then []
    else [CreateVocabSingle(cc, corpus[0])] + CreateVocabAll(cc, corpus[1..])
  }

  /** `compute_tf_single`: each count divided by the total. An empty map is
      returned as is, without dividing; a non-empty map whose counts add up to
      zero raises. */
  ghost function ComputeTfSingle(counts: map<string, int>): (r: Result<map<string, real>>)
    ensures r.Err? <==> |counts| > 0 && Total(counts) == 0.0
    ensures r.Err? ==> r.error == ZeroDivisionError
    ensures r.Ok? ==> r.value.Keys == counts.Keys
    ensures r.Ok? && |counts| > 0 ==> forall w :: w in counts ==> r.value[w] == counts[w] as real / Total(counts)
    ensures r.Ok? && |counts| > 0 ==> Sum(r.value) == 1.0
  {
    if |counts| == 0 then Ok(map[])
    else
      var total := Total(counts);
      if total == 0.0 then Err(ZeroDivisionError)
      else
        var tf := map w | w in counts :: counts[w] as real / total;
        TfSumsToOne(counts, total);
        Ok(tf)
  }

  /** The quotients by a non-zero total add up to one. */
  lemma TfSumsToOne(counts: map<string, int>, total: real)
    requires total == Total(counts) && total != 0.0
    ensures Sum(map w | w in counts :: counts[w] as real / total) == 1.0
  {
    var reals := AsReals(counts);
    SumDivide(reals, total);
    DivideBySelf(total);
    assert (map w | w in counts :: counts[w] as real / total) == map w | w in reals :: reals[w] / total;
  }

  /** Counts that are all at least one give strictly positive term frequencies. */
  lemma TfPositive(counts: map<string, int>)
    requires |counts| > 0
    requires forall w :: w in counts ==> counts[w] >= 1
    ensures ComputeTfSingle(counts).Ok?
    ensures forall w :: w in counts ==> ComputeTfSingle(counts).value[w] > 0.0
  {
    TotalPositive(counts);
    var total := Total(counts);
    forall w | w in counts
      ensures ComputeTfSingle(counts).value[w] > 0.0
    {
      var q := counts[w] as real / total;
      assert ComputeTfSingle(counts).value[w] == q;
      QuotientPositive(counts[w] as real, total);
    }
  }

  lemma TotalPositive(counts: map<string, int>)
    requires |counts| > 0
    requires forall w :: w in counts ==> counts[w] >= 1
    ensures Total(counts) > 0.0
  {
    var reals := AsReals(counts);
    SumNonNegative(reals);
    var v :| v in counts;
    assert reals[v] != 0.0;
  }

  lemma QuotientPositive(a: real, b: real)
    requires a > 0.0 && b > 0.0
    ensures a / b > 0.0
  {
  }

  /** `compute_tf_all`: the term frequencies of every document, in order; the
      first document whose division fails makes the whole call fail. */
  ghost function ComputeTfAll(all: seq<map<string, int>>): (r: Result<seq<map<string, real>>>)
    ensures r.Ok? <==> forall i :: 0 <= i < |all| ==> ComputeTfSingle(all[i]).Ok?
    ensures r.Err? ==> r.error == ZeroDivisionError
    ensures r.Ok? ==> |r.value| == |all|
    ensures r.Ok? ==> forall i :: 0 <= i < |all| ==> r.value[i] == ComputeTfSingle(all[i]).value
  {
    if |all| == 0 then Ok([])
    else
      match ComputeTfSingle(all[0])
      case Err(e) => Err(e)
      case Ok(tf) =>
        match ComputeTfAll(all[1..])
        case Err(e) => Err(e)
        case Ok(rest) => Ok([tf] + rest)
  }

  /** Term counts that came from tokens never make term frequency divide by zero. */
  lemma TfOfCountsSucceeds(cc: CharClasses, corpus: seq<string>)
    ensures ComputeTfAll(CreateVocabAll(cc, corpus)).Ok?
  {
    var all := CreateVocabAll(cc, corpus);
    forall i | 0 <= i < |all|
      ensures ComputeTfSingle(all[i]).Ok?
    {
      var tokens := CreateTokensSingle(cc, corpus[i]);
      if |all[i]| > 0 {
        var w :| w in all[i];
        assert w in tokens;
      }
    }
  }

  /** The indices of the documents whose token set contains `w`. */
  ghost function DocsWith(sets: seq<set<string>>, w: string): set<nat>
  {
    set i: nat | i < |sets| && w in sets[i]
  }

  /** Appending a document adds its index to the documents of each of its words. */
  lemma DocsWithSnoc(sets: seq<set<string>>, w: string)
    requires |sets| > 0
    ensures var n := |sets| - 1;
      DocsWith(sets, w) == DocsWith(sets[..n], w) + (if w in sets[n] then {n} else {})
    ensures var n := |sets| - 1;
      |DocsWith(sets, w)| == |DocsWith(sets[..n], w)| + (if w in sets[n] then 1 else 0)
  {
    var n := |sets| - 1;
    assert forall i :: 0 <= i < n ==> sets[i] == sets[..n][i];
    assert DocsWith(sets, w) == DocsWith(sets[..n], w) + (if w in sets[n] then {n} else {});
    assert n !in DocsWith(sets[..n], w);
  }

  /** The per-word document counts of the first loop of `compute_idf_single`:
      each document adds one for every distinct word it contains. */
  function DocFreq(sets: seq<set<string>>): (df: map<string, nat>)
    ensures forall w :: w in df <==> exists i :: 0 <= i < |sets| && w in sets[i]
    ensures forall w :: w in df ==> 1 <= df[w] <= |sets|
    ensures forall w :: w in df ==> df[w] == |DocsWith(sets, w)|
    decreases |sets|
  {
    if |sets| == 0 then map[]
    else
      var n := |sets| - 1;
      var prefix := sets[..n];
      var last := sets[n];
      var prev := DocFreq(prefix);
      var df := map w | w in prev.Keys + last :: (if w in prev then prev[w] else 0) + (if w in last then 1 else 0);
      DocFreqStepCounts(sets, prefix, prev, df);
      DocFreqStepKeys(sets, prefix, prev, df);
      df
  }

  lemma DocFreqStepCounts(sets: seq<set<string>>, prefix: seq<set<string>>, prev: map<string, nat>, df: map<string, nat>)
    requires |sets| > 0 && prefix == sets[..|sets| - 1]
    requires forall w :: w in prev ==> prev[w] == |DocsWith(prefix, w)|
    requires forall w :: w in prev <==> exists i :: 0 <= i < |prefix| && w in prefix[i]
    requires df == map w | w in prev.Keys + sets[|sets| - 1] ::
      (if w in prev then prev[w] else 0) + (if w in sets[|sets| - 1] then 1 else 0)
    ensures forall w :: w in df ==> df[w] == |DocsWith(sets, w)|
  {
    forall w | w in df
      ensures df[w] == |DocsWith(sets, w)|
    {
      DocsWithSnoc(sets, w);
      if w !in prev {
        assert DocsWith(prefix, w) == {};
      }
    }
  }

  lemma DocFreqStepKeys(sets: seq<set<string>>, prefix: seq<set<string>>, prev: map<string, nat>, df: map<string, nat>)
    requires |sets| > 0 && prefix == sets[..|sets| - 1]
    requires forall w :: w in prev <==> exists i :: 0 <= i < |prefix| && w in prefix[i]
    requires df.Keys == prev.Keys + sets[|sets| - 1]
    ensures forall w :: w in df <==> exists i :: 0 <= i < |sets| && w in sets[i]
  {
    var n := |sets| - 1;
    forall w
      ensures w in df <==> exists i :: 0 <= i < |sets| && w in sets[i]
    {
      if w in df && w !in sets[n] {
        var i :| 0 <= i < n && w in prefix[i];
        assert w in sets[i];
      }
      if exists i :: 0 <= i < |sets| && w in sets[i] {
        var i :| 0 <= i < |sets| && w in sets[i];
        if i < n {
          assert w in prefix[i];
        }
      }
    }
  }

  /** The token set of every document, as `set(create_vocab_single(doc).keys())`. */
  function TokenSets(cc: CharClasses, corpus: seq<string>): (sets: seq<set<string>>)
    ensures |sets| == |corpus|
    ensures forall i :: 0 <= i < |corpus| ==> sets[i] == CreateVocabSingle(cc, corpus[i]).Keys
  {
    seq(|corpus|, i requires 0 <= i < |corpus| => CreateVocabSingle(cc, corpus[i]).Keys)
  }

  /** Some document of the corpus has `w` among its tokens. */
  ghost predicate InCorpus(cc: CharClasses, corpus: seq<string>, w: string)
  {
    exists i :: 0 <= i < |corpus| && w in CreateTokensSingle(cc, corpus[i])
  }

  /** The indices of the documents whose tokens include `w`. */
  ghost function DocsContaining(cc: CharClasses, corpus: seq<string>, w: string): set<nat>
  {
    set i: nat | i < |corpus| && w in CreateTokensSingle(cc, corpus[i])
  }

  /** The smoothed inverse document frequency `log(1 + N / df)`. */
  function IdfWeight(ln: real -> real, n: nat, df: nat): real
    requires df >= 1
  {
    ln(1.0 + (n as real) / (df as real))
  }

  /** The document sets seen by `compute_idf_single` are the token sets. */
  lemma TokenSetsAgree(cc: CharClasses, corpus: seq<string>, w: string)
    ensures DocsWith(TokenSets(cc, corpus), w) == DocsContaining(cc, corpus, w)
    ensures (exists i :: 0 <= i < |corpus| && w in TokenSets(cc, corpus)[i])
        <==> InCorpus(cc, corpus, w)
  {
    var sets := TokenSets(cc, corpus);
    assert forall i :: 0 <= i < |corpus| ==> (w in sets[i] <==> w in CreateTokensSingle(cc, corpus[i]));
  }

  /** The document counts of a corpus, stated on its documents' tokens. */
  lemma CorpusDocFreq(cc: CharClasses, corpus: seq<string>)
    ensures var df := DocFreq(TokenSets(cc, corpus));
      && (forall w :: w in df <==> InCorpus(cc, corpus, w))
      && (forall w :: w in df ==> 1 <= df[w] <= |corpus| && df[w] == |DocsContaining(cc, corpus, w)|)
  {
    forall w {
      TokenSetsAgree(cc, corpus, w);
    }
  }

  /** The weights of a table of positive document counts are positive. */
  lemma IdfTablePositive(ln: real -> real, n: nat, df: map<string, nat>)
    requires forall w :: w in df ==> 1 <= df[w] <= n
    ensures LnLaws(ln) ==> forall w :: w in df ==> IdfWeight(ln, n, df[w]) > 0.0
  {
    if LnLaws(ln) {
      forall w | w in df {
        IdfPositive(ln, n, df[w]);
      }
    }
  }

  /** `compute_idf_single`: one weight per word of the corpus. */
  function ComputeIdfSingle(cc: CharClasses, ln: real -> real, corpus: seq<string>): (idf: map<string, real>)
    ensures forall w :: w in idf <==> InCorpus(cc, corpus, w)
    ensures forall w :: w in idf ==>
      var df := |DocsContaining(cc, corpus, w)|;
      1 <= df <= |corpus| && idf[w] == IdfWeight(ln, |corpus|, df)
    ensures LnLaws(ln) ==> forall w :: w in idf ==> idf[w] > 0.0
  {
    var df := DocFreq(TokenSets(cc, corpus));
    CorpusDocFreq(cc, corpus);
    IdfTablePositive(ln, |corpus|, df);
    map w | w in df :: IdfWeight(ln, |corpus|, df[w])
  }

  /** The weight of a word found in some document is strictly positive. */
  lemma IdfPositive(ln: real -> real, n: nat, df: nat)
    requires LnLaws(ln)
    requires 1 <= df <= n
    ensures IdfWeight(ln, n, df) > 0.0
  {
    assert (n as real) / (df as real) > 0.0;
  }

  /** For a fixed corpus size, a word found in more documents never weighs more. */
  lemma IdfAntitone(ln: real -> real, n: nat, df1: nat, df2: nat)
    requires LnLaws(ln)
    requires 1 <= df1 <= df2
    ensures IdfWeight(ln, n, df2) <= IdfWeight(ln, n, df1)
  {
    var a := (n as real) / (df2 as real);
    var b := (n as real) / (df1 as real);
    assert a <= b by {
      assert a * (df2 as real) == n as real;
      assert b * (df1 as real) == n as real;
    }
    assert 0.0 < 1.0 + a;
  }

  /** `idf_dict.get(word, 0.0)`. */
  function IdfOrZero(idf: map<string, real>, w: string): real
  {
    if w in idf then idf[w] else 0.0
  }

  /** `compute_tfidf_single`: every term frequency times its weight, with weight
      zero for a word the table does not know. */
  function ComputeTfidfSingle(tf: map<string, real>, idf: map<string, real>): (r: map<string, real>)
    ensures r.Keys == tf.Keys
    ensures forall w :: w in r && w !in idf ==> r[w] == 0.0
    ensures forall w :: w in r && w in idf ==> r[w] == tf[w] * idf[w]
    ensures (forall w :: w in tf ==> tf[w] >= 0.0) && (forall w :: w in idf ==> idf[w] >= 0.0) ==>
      forall w :: w in r ==> r[w] >= 0.0
    ensures forall w :: w in r && w in idf && tf[w] > 0.0 && idf[w] > 0.0 ==> r[w] > 0.0
  {
    map w | w in tf :: tf[w] * IdfOrZero(idf, w)
  }

  /** `compute_tfidf_all`: the loop form, one document after another. It agrees
      with `compute_tfidf_single` on every document and keeps corpus order. */
  function ComputeTfidfAll(tfs: seq<map<string, real>>, idf: map<string, real>): (r: seq<map<string, real>>)
    ensures |r| == |tfs|
    ensures forall i :: 0 <= i < |tfs| ==> r[i] == ComputeTfidfSingle(tfs[i], idf)
  {
    if |tfs| == 0 then []
    else
      var tf := tfs[0];
      var weighted := map w | w in tf :: tf[w] * (if w in idf then idf[w] else 0.0);
      assert weighted == ComputeTfidfSingle(tf, idf) by {
        forall w | w in tf ensures weighted[w] == ComputeTfidfSingle(tf, idf)[w] {
        }
      }
      [weighted] + ComputeTfidfAll(tfs[1..], idf)
  }
}
