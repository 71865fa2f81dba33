/**
 * `TextProcessor`: sentence segmentation, keyword extraction and the lexical relevance test.
 * All three are single expressions in the source and are functions here.
 */
module TextProcessor {
  import opened Chars
  import opened Text
  import Config

  /** The boundary `split_into_sentences` cuts at: a period followed by a space. */
  const Separator: string := ". "

  /** `text.split('. ')`: the pieces between non-overlapping separators, found left to right. */
  function Fragments(s: string): (fs: seq<string>)
    ensures |fs| >= 1 && IsPrefix(fs[0], s)
    decreases |s|
  {
    if IsPrefix(Separator, s) then [""] + Fragments(s[|Separator|..])
    else if s == [] then [""]
    else
      var r := Fragments(s[1..]);
      [[s[0]] + r[0]] + r[1..]
  }

  /** Joining the fragments with the separator gives back the text. */
  lemma {:induction false} JoinFragments(s: string)
    ensures Join(Fragments(s), Separator) == s
    decreases |s|
  {
    if IsPrefix(Separator, s) {
      JoinFragments(s[2..]);
      assert s == Separator + s[2..];
      assert Fragments(s)[1..] == Fragments(s[2..]);
    } else if s != [] {
      var r := Fragments(s[1..]);
      JoinFragments(s[1..]);
      FragmentsCons(s);
      JoinGrowHead(s[0], r, Separator);
      assert s == [s[0]] + s[1..];
    }
  }

  /** Putting one more character in front of the first element puts it in front of the join. */
  lemma JoinGrowHead(c: char, r: seq<string>, sep: string)
    requires r != []
    ensures Join([[c] + r[0]] + r[1..], sep) == [c] + Join(r, sep)
  {
    var fs := [[c] + r[0]] + r[1..];
    assert fs[0] == [c] + r[0] && fs[1..] == r[1..];
  }

  /** No fragment contains the separator. */
  lemma {:induction false} FragmentsAvoidSeparator(s: string)
    ensures forall k :: 0 <= k < |Fragments(s)| ==> !Contains(Fragments(s)[k], Separator)
    decreases |s|
  {
    if IsPrefix(Separator, s) {
      FragmentsAvoidSeparator(s[2..]);
      assert Fragments(s)[1..] == Fragments(s[2..]);
      assert !Contains("", Separator);
    } else if s == [] {
      assert !Contains("", Separator);
    } else {
      var r := Fragments(s[1..]);
      FragmentsAvoidSeparator(s[1..]);
      var f := [s[0]] + r[0];
      assert f[1..] == r[0];
      assert forall k :: 1 <= k < |Fragments(s)| ==> Fragments(s)[k] == r[k];
    }
  }

  /** A separator-free head followed by nothing or by a separator is one whole fragment. */
  lemma {:induction false} FragmentsOfHead(x: string, t: string)
    requires !Contains(x, Separator)
    requires t == [] || IsPrefix(Separator, t)
    ensures Fragments(x + t) == [x + Fragments(t)[0]] + Fragments(t)[1..]
    decreases |x|
  {
    var ft := Fragments(t);
    if x == [] {
      assert x + t == t && x + ft[0] == ft[0];
      assert [ft[0]] + ft[1..] == ft;
    } else {
      NoSeparatorAtHead(x, t);
      FragmentsCons(x + t);
      assert (x + t)[0] == x[0] && (x + t)[1..] == x[1..] + t;
      FragmentsOfHead(x[1..], t);
      var r := Fragments(x[1..] + t);
      assert r[0] == x[1..] + ft[0] && r[1..] == ft[1..];
      assert [x[0]] + (x[1..] + ft[0]) == x + ft[0];
    }
  }

  lemma NoSeparatorAtHead(x: string, t: string)
    requires x != [] && !Contains(x, Separator)
    requires t == [] || IsPrefix(Separator, t)
    ensures !IsPrefix(Separator, x + t)
  {
    if |x| >= 2 {
      assert (x + t)[..2] == x[..2];
    } else if t != [] {
      assert (x + t)[1] == t[0];
    }
  }

  lemma FragmentsCons(s: string)
    requires s != [] && !IsPrefix(Separator, s)
    ensures Fragments(s) == [[s[0]] + Fragments(s[1..])[0]] + Fragments(s[1..])[1..]
  {
  }

  /**
   * Splitting undoes joining: `'. '.join(xs).split('. ') == xs` for a non-empty list of pieces
   * none of which contains the separator.
   */
  lemma {:induction false} FragmentsOfJoin(xs: seq<string>)
    requires |xs| >= 1
    requires forall k :: 0 <= k < |xs| ==> !Contains(xs[k], Separator)
    ensures Fragments(Join(xs, Separator)) == xs
    decreases |xs|
  {
    if |xs| == 1 {
      FragmentsOfHead(xs[0], []);
      assert xs[0] + [] == xs[0];
    } else {
      var rest := Join(xs[1..], Separator);
      FragmentsOfJoin(xs[1..]);
      var t := Separator + rest;
      assert t[|Separator|..] == rest;
      assert Fragments(t) == [""] + xs[1..];
      FragmentsOfHead(xs[0], t);
      assert Join(xs, Separator) == xs[0] + t;
    }
  }

  /** The list comprehension `[s.strip() for s in fs if s.strip()]`. */
  function KeepStripped(fs: seq<string>): (r: seq<string>)
    ensures |r| <= |fs|
    ensures forall k :: 0 <= k < |r| ==> r[k] != "" && IsStripped(r[k])
    decreases |fs|
  {
    if fs == [] then []
    else
      var t := Strip(fs[0]);
      StripIsStripped(fs[0]);
      (if t != "" then [t] else []) + KeepStripped(fs[1..])
  }

  /** `split_into_sentences`: the stripped, non-empty `'. '`-separated pieces of the text, in order. */
  function SplitIntoSentences(text: string): (r: seq<string>)
    ensures text == "" ==> r == []
    ensures forall k :: 0 <= k < |r| ==> r[k] != "" && IsStripped(r[k])
  {
    if text == "" then [] else KeepStripped(Fragments(text))
  }

  /** Each sentence is its own `strip()`. */
  lemma SentencesAreOwnStrip(text: string)
    ensures forall k :: 0 <= k < |SplitIntoSentences(text)| ==>
      Strip(SplitIntoSentences(text)[k]) == SplitIntoSentences(text)[k]
  {
    forall k | 0 <= k < |SplitIntoSentences(text)| {
      StripStripped(SplitIntoSentences(text)[k]);
    }
  }

  /** Each fragment, stripped. */
  function StripEach(fs: seq<string>): (r: seq<string>)
    decreases |fs|
  {
    if fs == [] then [] else [Strip(fs[0])] + StripEach(fs[1..])
  }

  /**
   * `KeepStripped` keeps, in order, exactly the non-empty stripped fragments: an order-preserving
   * subsequence of `StripEach(fs)` that holds each non-empty string as often as `StripEach(fs)` does.
   */
  lemma KeepStrippedIsFilter(fs: seq<string>)
    ensures IsSubsequence(KeepStripped(fs), StripEach(fs))
    ensures forall t :: t != "" ==> multiset(KeepStripped(fs))[t] == multiset(StripEach(fs))[t]
    ensures "" !in KeepStripped(fs)
  {
    KeepStrippedInOrder(fs);
    KeepStrippedCounts(fs);
  }

  lemma {:induction false} KeepStrippedInOrder(fs: seq<string>)
    ensures IsSubsequence(KeepStripped(fs), StripEach(fs))
    decreases |fs|
  {
    if fs != [] {
      var rest, restStripped := KeepStripped(fs[1..]), StripEach(fs[1..]);
      KeepStrippedInOrder(fs[1..]);
      var t := Strip(fs[0]);
      var r := KeepStripped(fs);
      assert StripEach(fs) == [t] + restStripped;
      if t != "" {
        assert r == [t] + rest;
        assert r[1..] == rest;
      } else {
        assert r == rest;
        SkipHead(r, t, restStripped);
      }
    }
  }

  lemma {:induction false} KeepStrippedCounts(fs: seq<string>)
    ensures forall t :: t != "" ==> multiset(KeepStripped(fs))[t] == multiset(StripEach(fs))[t]
    decreases |fs|
  {
    if fs != [] {
      var rest, restStripped := KeepStripped(fs[1..]), StripEach(fs[1..]);
      KeepStrippedCounts(fs[1..]);
      var t := Strip(fs[0]);
      var r := KeepStripped(fs);
      assert multiset(StripEach(fs)) == multiset([t]) + multiset(restStripped);
      if t != "" {
        assert r == [t] + rest;
        assert multiset(r) == multiset([t]) + multiset(rest);
      } else {
        assert r == rest;
      }
    }
  }

  lemma {:induction false} SkipHead<T>(a: seq<T>, x: T, b: seq<T>)
    requires IsSubsequence(a, b)
    ensures IsSubsequence(a, [x] + b)
  {
    assert ([x] + b)[1..] == b;
  }

  /**
   * The sentences are exactly the `'. '`-separated fragments of the text, stripped, with the
   * empty ones dropped: same order, same multiplicities.
   */
  lemma SentencesAreStrippedFragments(text: string)
    ensures IsSubsequence(SplitIntoSentences(text), StripEach(Fragments(text)))
    ensures forall t :: t != "" ==> multiset(SplitIntoSentences(text))[t] == multiset(StripEach(Fragments(text)))[t]
  {
    if text == "" {
      assert Strip("") == "";
      assert StripEach(Fragments(text)) == [""];
    } else {
      KeepStrippedIsFilter(Fragments(text));
    }
  }

  lemma {:induction false} StripEachAt(fs: seq<string>, j: nat)
    requires j < |fs|
    ensures |StripEach(fs)| == |fs| && StripEach(fs)[j] == Strip(fs[j])
    decreases |fs|
  {
    if j > 0 {
      StripEachAt(fs[1..], j - 1);
    } else {
      StripEachLength(fs);
    }
  }

  lemma {:induction false} StripEachLength(fs: seq<string>)
    ensures |StripEach(fs)| == |fs|
    decreases |fs|
  {
    if fs != [] {
      StripEachLength(fs[1..]);
    }
  }

  lemma StripOccurs(f: string)
    ensures Contains(f, Strip(f))
  {
    StripSlice(f);
    var a, b :| 0 <= a <= b <= |f| && Strip(f) == f[a..b];
    ContainsAt(f, Strip(f));
    assert OccursAt(f, Strip(f), a);
  }

  /** Every sentence is a piece of the original text. */
  lemma SentencesOccurInText(text: string)
    ensures forall k :: 0 <= k < |SplitIntoSentences(text)| ==> Contains(text, SplitIntoSentences(text)[k])
  {
    var ss := SplitIntoSentences(text);
    if text != "" {
      var fs := Fragments(text);
      SentencesAreStrippedFragments(text);
      SubsequenceMembers(ss, StripEach(fs));
      JoinFragments(text);
      StripEachLength(fs);
      forall k | 0 <= k < |ss| ensures Contains(text, ss[k]) {
        assert ss[k] in StripEach(fs);
        var j :| 0 <= j < |StripEach(fs)| && StripEach(fs)[j] == ss[k];
        StripEachAt(fs, j);
        JoinContainsEach(fs, Separator, j);
        StripOccurs(fs[j]);
        ContainsTransitive(text, fs[j], ss[k]);
      }
    }
  }

  /** Text without any separator is one sentence, or none when it is all whitespace. */
  lemma SplitWithoutSeparator(text: string)
    requires !Contains(text, Separator)
    ensures SplitIntoSentences(text) == if Strip(text) == "" then [] else [Strip(text)]
  {
    FragmentsOfJoin([text]);
    if text == "" {
      StripIsStripped(text);
    }
  }

  /**
   * Segmenting already segmented text changes nothing: joining stripped, non-empty,
   * separator-free sentences with `". "` and splitting again gives back the same sentences.
   */
  lemma {:induction false} SplitOfSegmented(ss: seq<string>)
    requires forall k :: 0 <= k < |ss| ==> ss[k] != "" && IsStripped(ss[k]) && !Contains(ss[k], Separator)
    ensures SplitIntoSentences(Join(ss, Separator)) == ss
  {
    if ss != [] {
      FragmentsOfJoin(ss);
      assert Join(ss, Separator) != "" by {
        assert |Join(ss, Separator)| >= |ss[0]| by {
          JoinHead(ss, Separator);
        }
      }
      KeepAllStripped(ss);
    }
  }

  lemma JoinHead(xs: seq<string>, sep: string)
    requires xs != []
    ensures IsPrefix(xs[0], Join(xs, sep))
  {
  }

  lemma {:induction false} KeepAllStripped(ss: seq<string>)
    requires forall k :: 0 <= k < |ss| ==> ss[k] != "" && IsStripped(ss[k])
    ensures KeepStripped(ss) == ss
    decreases |ss|
  {
    if ss != [] {
      StripStripped(ss[0]);
      KeepAllStripped(ss[1..]);
    }
  }

  /** The comprehension `[word for word in words if word not in Config.STOPWORDS]`. */
  function RemoveStopwords(ws: seq<string>): (r: seq<string>)
    ensures |r| <= |ws|
    ensures forall k :: 0 <= k < |r| ==> r[k] !in Config.Stopwords
    decreases |ws|
  {
    if ws == [] then []
    else (if ws[0] in Config.Stopwords then [] else [ws[0]]) + RemoveStopwords(ws[1..])
  }

  /** `extract_keywords`: the lowercased whitespace-separated words of the query that are not stop words. */
  function ExtractKeywords(query: string): seq<string>
  {
    RemoveStopwords(Words(LowerStr(query)))
  }

  /**
   * Removing stop words keeps the other words in order and with their multiplicities, so
   * duplicates survive.
   */
  lemma {:induction false} RemoveStopwordsIsFilter(ws: seq<string>)
    ensures IsSubsequence(RemoveStopwords(ws), ws)
    ensures forall w :: w !in Config.Stopwords ==> multiset(RemoveStopwords(ws))[w] == multiset(ws)[w]
    decreases |ws|
  {
    if ws != [] {
      RemoveStopwordsIsFilter(ws[1..]);
      assert ws == [ws[0]] + ws[1..];
      var r := RemoveStopwords(ws);
      if ws[0] in Config.Stopwords {
        assert r == RemoveStopwords(ws[1..]);
        SkipHead(r, ws[0], ws[1..]);
      } else {
        assert r[1..] == RemoveStopwords(ws[1..]);
      }
    }
  }

  /**
   * The keywords are the query's lowercased tokens minus the stop words: an order-preserving
   * subsequence of the tokens, no longer than them, with every other token kept as often as it
   * occurs; each keyword is a non-empty, whitespace-free, lower-case word and no stop word.
   */
  lemma KeywordsAreFilteredTokens(query: string)
    ensures var toks := Words(LowerStr(query));
      && IsSubsequence(ExtractKeywords(query), toks)
      && |ExtractKeywords(query)| <= |toks|
      && (forall w :: w !in Config.Stopwords ==> multiset(ExtractKeywords(query))[w] == multiset(toks)[w])
    ensures forall k :: 0 <= k < |ExtractKeywords(query)| ==>
      var w := ExtractKeywords(query)[k];
      w !in Config.Stopwords && w != "" && NoSpace(w) && IsLower(w)
  {
    var low := LowerStr(query);
    var toks := Words(low);
    RemoveStopwordsIsFilter(toks);
    SubsequenceMembers(ExtractKeywords(query), toks);
    LowerStrIsLower(query);
    WordsCharsFrom(low);
    forall k | 0 <= k < |ExtractKeywords(query)|
      ensures IsLower(ExtractKeywords(query)[k])
    {
      var w := ExtractKeywords(query)[k];
      assert w in toks;
      var j :| 0 <= j < |toks| && toks[j] == w;
      forall m | 0 <= m < |w| ensures Lower(w[m]) == w[m] {
        assert w[m] in low;
      }
    }
  }

  /** Worked example: stop words are dropped, the content word stays. */
  lemma KeywordsExample()
    ensures ExtractKeywords("nedir bu bilgi") == ["bilgi"]
  {
    ExampleLower();
    ExampleWords();
    ExampleStopwords();
  }

  lemma ExampleLower()
    ensures LowerStr("nedir bu bilgi") == "nedir bu bilgi"
  {
    LowerKeepsSpace();
    assert IsLower("nedir bu bilgi");
    LowerStrOfLower("nedir bu bilgi");
  }

  lemma ExampleWords()
    ensures Words("nedir bu bilgi") == ["nedir", "bu", "bilgi"]
  {
    assert "nedir bu bilgi" == Join(["nedir", "bu", "bilgi"], " ");
    assert NoSpace("nedir") && NoSpace("bu") && NoSpace("bilgi");
    WordsOfJoin(["nedir", "bu", "bilgi"]);
  }

  lemma ExampleStopwords()
    ensures RemoveStopwords(["nedir", "bu", "bilgi"]) == ["bilgi"]
  {
    var toks := ["nedir", "bu", "bilgi"];
    assert "nedir" in Config.Stopwords && "bu" in Config.Stopwords && "bilgi" !in Config.Stopwords;
    assert RemoveStopwords(toks[2..]) == ["bilgi"];
    assert RemoveStopwords(toks[1..]) == RemoveStopwords(toks[2..]);
  }

  lemma {:induction false} JoinIsLower(xs: seq<string>)
    requires forall k :: 0 <= k < |xs| ==> IsLower(xs[k])
    ensures IsLower(Join(xs, " "))
    decreases |xs|
  {
    if |xs| > 1 {
      JoinIsLower(xs[1..]);
      var j := Join(xs, " ");
      assert j == xs[0] + (" " + Join(xs[1..], " "));
      forall i | 0 <= i < |j| ensures Lower(j[i]) == j[i] {
        if i < |xs[0]| {
          assert j[i] == xs[0][i];
        } else if i > |xs[0]| {
          assert j[i] == Join(xs[1..], " ")[i - |xs[0]| - 1];
        } else {
          assert j[i] == ' ';
          LowerKeepsSpace();
        }
      }
    }
  }

  /** Extracting keywords from the space-joined keywords gives the same keywords again. */
  lemma KeywordsIdempotent(query: string)
    ensures ExtractKeywords(Join(ExtractKeywords(query), " ")) == ExtractKeywords(query)
  {
    var kws := ExtractKeywords(query);
    KeywordsAreFilteredTokens(query);
    JoinIsLower(kws);
    LowerStrOfLower(Join(kws, " "));
    WordsOfJoin(kws);
    NoStopwordsKept(kws);
  }

  lemma {:induction false} NoStopwordsKept(ws: seq<string>)
    requires forall k :: 0 <= k < |ws| ==> ws[k] !in Config.Stopwords
    ensures RemoveStopwords(ws) == ws
    decreases |ws|
  {
    if ws != [] {
      NoStopwordsKept(ws[1..]);
    }
  }

  /** `any(keyword in hay for keyword in keywords)`, scanning the keywords in order. */
  function AnyOccurs(hay: string, keywords: seq<string>): (b: bool)
    ensures b <==> exists k :: 0 <= k < |keywords| && Contains(hay, keywords[k])
    decreases |keywords|
  {
    keywords != [] && (Contains(hay, keywords[0]) || AnyOccurs(hay, keywords[1..]))
  }

  /**
   * `is_sentence_relevant`: some keyword is a substring of the lowercased sentence; never
   * true for an empty keyword list.
   */
  function IsSentenceRelevant(sentence: string, keywords: seq<string>): (b: bool)
    ensures keywords == [] ==> !b
    ensures b <==> exists k :: 0 <= k < |keywords| && Contains(LowerStr(sentence), keywords[k])
  {
    AnyOccurs(LowerStr(sentence), keywords)
  }

  /** Relevance means some keyword is literally a slice of the lowercased sentence. */
  lemma RelevantIffSlice(sentence: string, keywords: seq<string>)
    ensures IsSentenceRelevant(sentence, keywords) <==>
      exists k, i :: 0 <= k < |keywords| && OccursAt(LowerStr(sentence), keywords[k], i)
  {
    forall k | 0 <= k < |keywords| {
      ContainsAt(LowerStr(sentence), keywords[k]);
    }
  }

  /** Relevance ignores case: lowercasing the sentence first does not change the verdict. */
  lemma RelevanceIgnoresCase(sentence: string, keywords: seq<string>)
    ensures IsSentenceRelevant(LowerStr(sentence), keywords) == IsSentenceRelevant(sentence, keywords)
  {
    LowerStrIsLower(sentence);
  }
}
