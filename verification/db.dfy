/** `generate_vectors` of db.py: the build-time composition of the TF-IDF pipeline
    over a dataset of document texts. The SQLite read that supplies the texts is
    replaced by the parameter `dataset`. */
module Db {
  import opened Numerics
  import opened Tokenizer
  import opened Tfidf

  /** `generate_vectors`: counts, term frequencies, the corpus IDF table and the
      weighted maps, returned together with the untouched dataset. The term
      frequency step cannot fail on counts made from tokens (`TfOfCountsSucceeds`). */
  ghost function GenerateVectors(cc: CharClasses, ln: real -> real, dataset: seq<string>): (r: (seq<string>, seq<map<string, real>>))
    ensures r.0 == dataset
    ensures |r.1| == |dataset|
    ensures forall i :: 0 <= i < |dataset| ==>
      r.1[i].Keys == set t | t in CreateTokensSingle(cc, dataset[i])
  {
    var vocabAll := CreateVocabAll(cc, dataset);
    TfOfCountsSucceeds(cc, dataset);
    var tfAll := ComputeTfAll(vocabAll).value;
    var idf := ComputeIdfSingle(cc, ln, dataset);
    (dataset, ComputeTfidfAll(tfAll, idf))
  }

  /** Every word of a stored map is in the IDF table, so the `.get(word, 0.0)`
      default never applies at build time, and with a lawful logarithm every stored
      weight is strictly positive: its term frequency and its IDF both are. */
  lemma GeneratedWeights(cc: CharClasses, ln: real -> real, dataset: seq<string>, i: nat, w: string)
    requires i < |dataset|
    requires w in GenerateVectors(cc, ln, dataset).1[i]
    ensures w in ComputeIdfSingle(cc, ln, dataset)
    ensures LnLaws(ln) ==> GenerateVectors(cc, ln, dataset).1[i][w] > 0.0
  {
    var counts := CreateVocabSingle(cc, dataset[i]);
    var idf := ComputeIdfSingle(cc, ln, dataset);
    TfOfCountsSucceeds(cc, dataset);
    assert CreateVocabAll(cc, dataset)[i] == counts;
    var tf := ComputeTfSingle(counts).value;
    assert GenerateVectors(cc, ln, dataset).1[i] == ComputeTfidfSingle(tf, idf);
    assert w in CreateTokensSingle(cc, dataset[i]);
    assert InCorpus(cc, dataset, w);
    if LnLaws(ln) {
      TfPositive(counts);
    }
  }
}
