/** The tokenizer of tfidf.py (`create_tokens_single`).

    The four steps of the source are kept apart: lower-case the text, delete every
    character that is neither a word character (`\w`) nor whitespace (`\s`),
    replace each run of whitespace by one blank and trim the ends, and split on
    whitespace. The character classes and per-character lower-casing are left
    abstract: they are supplied as a `CharClasses` value. */
module Tokenizer {

  /** The regular-expression classes `\w` and `\s` and the per-character
      lower-casing that `str.lower()` applies. */
  datatype CharClasses = CharClasses(
    isWord: char -> bool,
    isSpace: char -> bool,
    lower: char -> char)

  /** The one fact about the classes that the pipeline relies on: the blank that
      replaces a whitespace run is itself whitespace. */
  predicate Lawful(cc: CharClasses)
  {
    cc.isSpace(' ')
  }

  /** No character of `s` is whitespace. */
  ghost predicate SpaceFree(cc: CharClasses, s: string)
  {
    forall c :: c in s ==> !cc.isSpace(c)
  }

  /** `doc.lower()`, one character at a time. */
  function Lower(cc: CharClasses, s: string): (r: string)
    ensures |r| == |s|
    ensures forall i :: 0 <= i < |s| ==> r[i] == cc.lower(s[i])
  {
    seq(|s|, i requires 0 <= i < |s| => cc.lower(s[i]))
  }

  /** `re.sub(r"[^\w\s]", "", s)`: keeps word and whitespace characters, in order. */
  function StripPunctuation(cc: CharClasses, s: string): (r: string)
    ensures forall c :: c in r ==> c in s && (cc.isWord(c) || cc.isSpace(c))
  {
    if |s| == 0 then []
    else (if cc.isWord(s[0]) || cc.isSpace(s[0]) then [s[0]] else []) + StripPunctuation(cc, s[1..])
  }

  /** Drops the leading whitespace of `s`. */
  function SkipSpaces(cc: CharClasses, s: string): (r: string)
    ensures |r| <= |s|
    ensures forall c :: c in r ==> c in s
    ensures |r| == 0 || !cc.isSpace(r[0])
  {
    if |s| > 0 && cc.isSpace(s[0]) then SkipSpaces(cc, s[1..]) else s
  }

  /** `re.sub(r"\s+", " ", s)`: every maximal whitespace run becomes one blank. */
  function CollapseSpaces(cc: CharClasses, s: string): (r: string)
    ensures forall c :: c in r ==> c in s || c == ' '
    decreases |s|
  {
    if |s| == 0 then []
    else if cc.isSpace(s[0]) then [' '] + CollapseSpaces(cc, SkipSpaces(cc, s[1..]))
    else [s[0]] + CollapseSpaces(cc, s[1..])
  }

  /** Drops the trailing whitespace of `s`. */
  function TrimEnd(cc: CharClasses, s: string): (r: string)
    ensures forall c :: c in r ==> c in s
  {
    if |s| > 0 && cc.isSpace(s[|s| - 1]) then TrimEnd(cc, s[..|s| - 1]) else s
  }

  /** `s.strip()`. */
  function Trim(cc: CharClasses, s: string): (r: string)
    ensures forall c :: c in r ==> c in s
  {
    TrimEnd(cc, SkipSpaces(cc, s))
  }

  /** The token under construction, if any, as a list of zero or one tokens. */
  function Flush(cur: string): seq<string>
  {
    if |cur| == 0 then [] else [cur]
  }

  /** `s.split()` continued from a partially read token `cur`: the maximal runs of
      non-whitespace characters. */
  function SplitFrom(cc: CharClasses, s: string, cur: string): (r: seq<string>)
    requires SpaceFree(cc, cur)
    ensures forall t :: t in r ==> |t| > 0
    ensures forall t :: t in r ==> SpaceFree(cc, t)
    ensures forall t, c :: t in r && c in t ==> c in cur || c in s
    decreases |s|
  {
    if |s| == 0 then Flush(cur)
    else if cc.isSpace(s[0]) then Flush(cur) + SplitFrom(cc, s[1..], [])
    else SplitFrom(cc, s[1..], cur + [s[0]])
  }

  /** `s.split()`. */
  function SplitWhitespace(cc: CharClasses, s: string): seq<string>
  {
    SplitFrom(cc, s, [])
  }

  /** `create_tokens_single`: lower-case, strip punctuation, normalise whitespace, split. */
  function CreateTokensSingle(cc: CharClasses, doc: string): (tokens: seq<string>)
    ensures forall t :: t in tokens ==> |t| > 0 && SpaceFree(cc, t)
    ensures Lawful(cc) ==>
      forall t, c :: t in tokens && c in t ==>
        cc.isWord(c) && exists j :: 0 <= j < |doc| && c == cc.lower(doc[j])
    ensures Lawful(cc) && (forall j :: 0 <= j < |doc| ==> !cc.isWord(cc.lower(doc[j]))) ==> tokens == []
  {
    var lowered := Lower(cc, doc);
    var words := StripPunctuation(cc, lowered);
    SplitWhitespace(cc, Trim(cc, CollapseSpaces(cc, words)))
  }

  /** The tokens written one after another. */
  function Concat(ts: seq<string>): string
  {
    if |ts| == 0 then [] else ts[0] + Concat(ts[1..])
  }

  /** `s` with its whitespace removed. */
  function NonSpace(cc: CharClasses, s: string): string
  {
    if |s| == 0 then []
    else (if cc.isSpace(s[0]) then [] else [s[0]]) + NonSpace(cc, s[1..])
  }

  /** The characters of `s` that are word characters and not whitespace, in order. */
  function WordChars(cc: CharClasses, s: string): string
  {
    if |s| == 0 then []
    else (if cc.isWord(s[0]) && !cc.isSpace(s[0]) then [s[0]] else []) + WordChars(cc, s[1..])
  }

  lemma {:induction false} ConcatAppend(a: seq<string>, b: seq<string>)
    ensures Concat(a + b) == Concat(a) + Concat(b)
  {
    if |a| != 0 {
      assert (a + b)[1..] == a[1..] + b;
      ConcatAppend(a[1..], b);
    } else {
      assert a + b == b;
    }
  }

  /** Splitting loses no non-whitespace character and invents none. */
  lemma {:induction false} ConcatSplitFrom(cc: CharClasses, s: string, cur: string)
    requires SpaceFree(cc, cur)
    ensures Concat(SplitFrom(cc, s, cur)) == cur + NonSpace(cc, s)
    decreases |s|
  {
    if |s| == 0 {
      assert Concat(Flush(cur)) == cur;
    } else if cc.isSpace(s[0]) {
      ConcatAppend(Flush(cur), SplitFrom(cc, s[1..], []));
      ConcatSplitFrom(cc, s[1..], []);
      assert Concat(Flush(cur)) == cur;
    } else {
      ConcatSplitFrom(cc, s[1..], cur + [s[0]]);
    }
  }

  /** Leading whitespace does not change the split. */
  lemma {:induction false} SplitSkipSpaces(cc: CharClasses, s: string)
    ensures SplitFrom(cc, SkipSpaces(cc, s), []) == SplitFrom(cc, s, [])
    decreases |s|
  {
    if |s| > 0 && cc.isSpace(s[0]) {
      SplitSkipSpaces(cc, s[1..]);
    }
  }

  /** Replacing each whitespace run by one blank does not change the split. */
  lemma {:induction false} SplitCollapseSpaces(cc: CharClasses, s: string, cur: string)
    requires Lawful(cc) && SpaceFree(cc, cur)
    ensures SplitFrom(cc, CollapseSpaces(cc, s), cur) == SplitFrom(cc, s, cur)
    decreases |s|
  {
    if |s| != 0 {
      if cc.isSpace(s[0]) {
        var rest := SkipSpaces(cc, s[1..]);
        var collapsed := [' '] + CollapseSpaces(cc, rest);
        assert collapsed[1..] == CollapseSpaces(cc, rest);
        SplitCollapseSpaces(cc, rest, []);
        SplitSkipSpaces(cc, s[1..]);
      } else {
        var collapsed := [s[0]] + CollapseSpaces(cc, s[1..]);
        assert collapsed[1..] == CollapseSpaces(cc, s[1..]);
        SplitCollapseSpaces(cc, s[1..], cur + [s[0]]);
      }
    }
  }

  /** A trailing whitespace character does not change the split. */
  lemma {:induction false} SplitTrailingSpace(cc: CharClasses, t: string, c: char, cur: string)
    requires cc.isSpace(c) && SpaceFree(cc, cur)
    ensures SplitFrom(cc, t + [c], cur) == SplitFrom(cc, t, cur)
    decreases |t|
  {
    if |t| == 0 {
      assert t + [c] == [c];
      assert [c][1..] == [];
    } else {
      assert (t + [c])[1..] == t[1..] + [c];
      if cc.isSpace(t[0]) {
        SplitTrailingSpace(cc, t[1..], c, []);
      } else {
        SplitTrailingSpace(cc, t[1..], c, cur + [t[0]]);
      }
    }
  }

  /** Trailing whitespace does not change the split. */
  lemma {:induction false} SplitTrimEnd(cc: CharClasses, s: string)
    ensures SplitFrom(cc, TrimEnd(cc, s), []) == SplitFrom(cc, s, [])
    decreases |s|
  {
    if |s| > 0 && cc.isSpace(s[|s| - 1]) {
      var t := s[..|s| - 1];
      assert s == t + [s[|s| - 1]];
      SplitTrimEnd(cc, t);
      SplitTrailingSpace(cc, t, s[|s| - 1], []);
    }
  }

  /** Removing whitespace after removing punctuation leaves the word characters. */
  lemma {:induction false} NonSpaceStripPunctuation(cc: CharClasses, s: string)
    ensures NonSpace(cc, StripPunctuation(cc, s)) == WordChars(cc, s)
  {
    if |s| != 0 {
      var head := if cc.isWord(s[0]) || cc.isSpace(s[0]) then [s[0]] else [];
      NonSpaceAppend(cc, head, StripPunctuation(cc, s[1..]));
      NonSpaceStripPunctuation(cc, s[1..]);
    }
  }

  lemma {:induction false} NonSpaceAppend(cc: CharClasses, a: string, b: string)
    ensures NonSpace(cc, a + b) == NonSpace(cc, a) + NonSpace(cc, b)
  {
    if |a| != 0 {
      assert (a + b)[1..] == a[1..] + b;
      NonSpaceAppend(cc, a[1..], b);
    } else {
      assert a + b == b;
    }
  }

  /** Whitespace normalisation is invisible to the split: the tokens are the
      whitespace-separated runs of the lower-cased text with punctuation removed. */
  lemma TokensIgnoreWhitespaceLayout(cc: CharClasses, doc: string)
    requires Lawful(cc)
    ensures CreateTokensSingle(cc, doc) == SplitWhitespace(cc, StripPunctuation(cc, Lower(cc, doc)))
  {
    var words := StripPunctuation(cc, Lower(cc, doc));
    var collapsed := CollapseSpaces(cc, words);
    SplitTrimEnd(cc, SkipSpaces(cc, collapsed));
    SplitSkipSpaces(cc, collapsed);
    SplitCollapseSpaces(cc, words, []);
  }

  /** Read one after another, the tokens spell exactly the word characters of the
      lower-cased text, in order: nothing is lost and nothing is added. */
  lemma TokensSpellWordChars(cc: CharClasses, doc: string)
    requires Lawful(cc)
    ensures Concat(CreateTokensSingle(cc, doc)) == WordChars(cc, Lower(cc, doc))
  {
    var words := StripPunctuation(cc, Lower(cc, doc));
    TokensIgnoreWhitespaceLayout(cc, doc);
    ConcatSplitFrom(cc, words, []);
    NonSpaceStripPunctuation(cc, Lower(cc, doc));
  }
}
