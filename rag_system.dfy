/**
 * `RAGSystem`: the relevance gate and answer decision of `process_query`, and the sentence
 * loading of `load_content_from_links`. The vector-store query result is given as two
 * sequences (the retrieved texts and their distances, nearest first); page fetching is the
 * parameter `fetch`; the model call is the parameter `llm`.
 */
module RagSystem {
  import opened Wrappers
  import opened Text
  import opened TextProcessor
  import opened LlmService
  import Config

  /** A retrieved sentence is admitted when it contains a keyword and is close enough. */
  predicate Admits(text: string, distance: real, keywords: seq<string>, threshold: real)
  {
    IsSentenceRelevant(text, keywords) && distance <= threshold
  }

  /**
   * The sentences the gate admits: `zip(texts, distances)`, which stops at the shorter list,
   * filtered by `Admits`, in retrieval order.
   */
  function Admitted(texts: seq<string>, distances: seq<real>, keywords: seq<string>, threshold: real): seq<string>
    decreases |texts|
  {
    if texts == [] || distances == [] then []
    else
      (if Admits(texts[0], distances[0], keywords, threshold) then [texts[0]] else [])
      + Admitted(texts[1..], distances[1..], keywords, threshold)
  }

  /** The loop of `process_query` that builds `relevant_sentences`. */
  method FilterCandidates(texts: seq<string>, distances: seq<real>, keywords: seq<string>, threshold: real)
    returns (relevant: seq<string>)
    ensures relevant == Admitted(texts, distances, keywords, threshold)
  {
    relevant := [];
    var i := 0;
    while i < |texts| && i < |distances|
      invariant 0 <= i <= |texts| && i <= |distances|
      invariant relevant + Admitted(texts[i..], distances[i..], keywords, threshold)
             == Admitted(texts, distances, keywords, threshold)
    {
      AdmittedStep(texts, distances, keywords, threshold, i);
      ghost var rest := Admitted(texts[i + 1..], distances[i + 1..], keywords, threshold);
      if IsSentenceRelevant(texts[i], keywords) && distances[i] <= threshold {
        assert relevant + [texts[i]] + rest == relevant + ([texts[i]] + rest);
        relevant := relevant + [texts[i]];
      } else {
        assert [] + rest == rest;
      }
      i := i + 1;
    }
  }

  lemma AdmittedStep(texts: seq<string>, distances: seq<real>, keywords: seq<string>, threshold: real, i: nat)
    requires i < |texts| && i < |distances|
    ensures Admitted(texts[i..], distances[i..], keywords, threshold)
         == (if Admits(texts[i], distances[i], keywords, threshold) then [texts[i]] else [])
            + Admitted(texts[i + 1..], distances[i + 1..], keywords, threshold)
  {
    assert texts[i..][1..] == texts[i + 1..] && distances[i..][1..] == distances[i + 1..];
  }

  /**
   * The admitted list is an order-preserving subsequence of the texts and is no longer than
   * either input, since `zip` stops at the shorter one.
   */
  lemma {:induction false} AdmittedIsSubsequence(texts: seq<string>, distances: seq<real>, keywords: seq<string>, threshold: real)
    ensures IsSubsequence(Admitted(texts, distances, keywords, threshold), texts)
    ensures |Admitted(texts, distances, keywords, threshold)| <= |texts|
    ensures |Admitted(texts, distances, keywords, threshold)| <= |distances|
    decreases |texts|
  {
    if texts != [] && distances != [] {
      var rest := Admitted(texts[1..], distances[1..], keywords, threshold);
      AdmittedIsSubsequence(texts[1..], distances[1..], keywords, threshold);
      if Admits(texts[0], distances[0], keywords, threshold) {
        assert Admitted(texts, distances, keywords, threshold)[1..] == rest;
      } else {
        assert Admitted(texts, distances, keywords, threshold) == rest;
        SkipHead(rest, texts[0], texts[1..]);
        assert [texts[0]] + texts[1..] == texts;
      }
    }
  }

  /** `Admitted(...)[j]` is the text at some position where both tests pass. */
  ghost predicate AdmittedFrom(texts: seq<string>, distances: seq<real>, keywords: seq<string>, threshold: real, s: string)
  {
    exists i :: 0 <= i < |texts| && i < |distances| && texts[i] == s && Admits(s, distances[i], keywords, threshold)
  }

  /**
   * Every admitted sentence is a text at a position where it passes the keyword test and its
   * own distance is within the threshold.
   */
  lemma {:induction false} AdmittedSound(texts: seq<string>, distances: seq<real>, keywords: seq<string>, threshold: real)
    ensures forall j :: 0 <= j < |Admitted(texts, distances, keywords, threshold)| ==>
      AdmittedFrom(texts, distances, keywords, threshold, Admitted(texts, distances, keywords, threshold)[j])
    decreases |texts|
  {
    if texts != [] && distances != [] {
      var rest := Admitted(texts[1..], distances[1..], keywords, threshold);
      AdmittedSound(texts[1..], distances[1..], keywords, threshold);
      var admitted := Admitted(texts, distances, keywords, threshold);
      var h := if Admits(texts[0], distances[0], keywords, threshold) then 1 else 0;
      assert admitted[h..] == rest;
      forall j | 0 <= j < |admitted|
        ensures AdmittedFrom(texts, distances, keywords, threshold, admitted[j])
      {
        if j < h {
          assert texts[0] == admitted[j];
        } else {
          assert admitted[j] == rest[j - h];
          var i :| 0 <= i < |texts| - 1 && i < |distances| - 1 && texts[1..][i] == rest[j - h]
                 && Admits(rest[j - h], distances[1..][i], keywords, threshold);
          assert texts[i + 1] == admitted[j] && distances[i + 1] == distances[1..][i];
        }
      }
    }
  }

  /** Every text whose position passes both tests is admitted. */
  lemma {:induction false} AdmittedComplete(texts: seq<string>, distances: seq<real>, keywords: seq<string>, threshold: real)
    ensures forall i ::
      0 <= i < |texts| && i < |distances| && Admits(texts[i], distances[i], keywords, threshold)
      ==> texts[i] in Admitted(texts, distances, keywords, threshold)
    decreases |texts|
  {
    if texts != [] && distances != [] {
      AdmittedComplete(texts[1..], distances[1..], keywords, threshold);
      forall i | 0 <= i < |texts| && i < |distances| && Admits(texts[i], distances[i], keywords, threshold)
        ensures texts[i] in Admitted(texts, distances, keywords, threshold)
      {
        if i > 0 {
          assert texts[1..][i - 1] == texts[i] && distances[1..][i - 1] == distances[i];
        }
      }
    }
  }

  /** Nothing is admitted exactly when no position within both lists passes both tests. */
  lemma AdmittedEmptyIff(texts: seq<string>, distances: seq<real>, keywords: seq<string>, threshold: real)
    ensures Admitted(texts, distances, keywords, threshold) == [] <==>
      forall i :: 0 <= i < |texts| && i < |distances| ==> !Admits(texts[i], distances[i], keywords, threshold)
  {
    AdmittedSound(texts, distances, keywords, threshold);
    AdmittedComplete(texts, distances, keywords, threshold);
    var admitted := Admitted(texts, distances, keywords, threshold);
    if admitted != [] {
      assert AdmittedFrom(texts, distances, keywords, threshold, admitted[0]);
    }
  }

  /** The outcome of the gate: refuse, or answer from a list of context sentences. */
  /** One retrieved pair contributes its text exactly when it passes both tests. */
  lemma AdmittedSingle(text: string, distance: real, keywords: seq<string>, threshold: real)
    ensures Admitted([text], [distance], keywords, threshold)
         == if Admits(text, distance, keywords, threshold) then [text] else []
  {
  }

  /**
   * Admission works pair by pair: for two batches of pairs, the admitted list of the whole is
   * the admitted list of the first batch followed by that of the second. With `AdmittedSingle`
   * this fixes every copy of a repeated sentence and the retrieval order.
   */
  lemma {:induction false} AdmittedAppend(t1: seq<string>, d1: seq<real>, t2: seq<string>, d2: seq<real>,
                                          keywords: seq<string>, threshold: real)
    requires |t1| == |d1|
    ensures Admitted(t1 + t2, d1 + d2, keywords, threshold)
         == Admitted(t1, d1, keywords, threshold) + Admitted(t2, d2, keywords, threshold)
    decreases |t1|
  {
    if t1 != [] {
      assert (t1 + t2)[0] == t1[0] && (t1 + t2)[1..] == t1[1..] + t2;
      assert (d1 + d2)[0] == d1[0] && (d1 + d2)[1..] == d1[1..] + d2;
      AdmittedAppend(t1[1..], d1[1..], t2, d2, keywords, threshold);
    } else {
      assert t1 + t2 == t2 && d1 + d2 == d2;
    }
  }

  datatype Decision = NotFound | Answerable(context: seq<string>)

  /**
   * The answer decision of `process_query`: refuse when nothing was admitted or when the
   * nearest retrieved sentence, admitted or not, is farther than the threshold.
   */
  function Decide(admitted: seq<string>, distances: seq<real>, threshold: real): Decision
  {
    if admitted == [] || (distances != [] && distances[0] > threshold) then NotFound
    else Answerable(admitted)
  }

  /** The gate as a whole: admission followed by the decision. */
  function Gate(texts: seq<string>, distances: seq<real>, keywords: seq<string>, threshold: real): Decision
  {
    Decide(Admitted(texts, distances, keywords, threshold), distances, threshold)
  }

  /**
   * The gate refuses exactly when no retrieved position passes both tests, or when the first
   * distance exceeds the threshold; when it answers, the context is the non-empty admitted list.
   */
  lemma GateRefusesIff(texts: seq<string>, distances: seq<real>, keywords: seq<string>, threshold: real)
    ensures Gate(texts, distances, keywords, threshold).NotFound? <==>
      || (forall i :: 0 <= i < |texts| && i < |distances| ==> !Admits(texts[i], distances[i], keywords, threshold))
      || (distances != [] && distances[0] > threshold)
    ensures Gate(texts, distances, keywords, threshold).Answerable? ==>
      Gate(texts, distances, keywords, threshold).context == Admitted(texts, distances, keywords, threshold) != []
  {
    AdmittedEmptyIff(texts, distances, keywords, threshold);
  }

  /** A query reduced to stop words, or an empty retrieval result, is refused. */
  lemma GateRefusesWithoutInput(texts: seq<string>, distances: seq<real>, keywords: seq<string>, threshold: real)
    requires keywords == [] || texts == [] || distances == []
    ensures Admitted(texts, distances, keywords, threshold) == []
    ensures Gate(texts, distances, keywords, threshold) == NotFound
  {
    AdmittedEmptyIff(texts, distances, keywords, threshold);
  }

  /** Distances in ascending order, as the vector store returns them. */
  predicate Ascending(distances: seq<real>)
  {
    forall i, j :: 0 <= i <= j < |distances| ==> distances[i] <= distances[j]
  }

  /**
   * With ascending distances the first-distance veto never decides anything: the gate
   * refuses exactly when nothing was admitted.
   */
  lemma VetoRedundantWhenAscending(texts: seq<string>, distances: seq<real>, keywords: seq<string>, threshold: real)
    requires Ascending(distances)
    ensures Gate(texts, distances, keywords, threshold).NotFound? <==>
      Admitted(texts, distances, keywords, threshold) == []
  {
    AdmittedEmptyIff(texts, distances, keywords, threshold);
    if distances != [] && distances[0] > threshold {
      forall i | 0 <= i < |texts| && i < |distances|
        ensures !Admits(texts[i], distances[i], keywords, threshold)
      {
        assert distances[0] <= distances[i];
      }
    }
  }

  /**
   * Without ascending distances the veto can refuse although a sentence was admitted: the
   * first candidate is far and irrelevant, the second is close and relevant.
   */
  lemma VetoOverridesAdmission()
    ensures Admitted(["b", "a"], [0.9, 0.2], ["a"], 0.5) == ["a"]
    ensures Gate(["b", "a"], [0.9, 0.2], ["a"], 0.5) == NotFound
  {
    assert !IsSentenceRelevant("b", ["a"]) by {
      assert LowerStr("b") == "b";
      assert !Contains("", "a");
      assert !Contains("b", "a");
    }
    assert IsSentenceRelevant("a", ["a"]) by {
      assert LowerStr("a") == "a";
      assert Contains("a", "a");
    }
    assert Admitted(["b", "a"][1..], [0.9, 0.2][1..], ["a"], 0.5) == ["a"];
  }

  /**
   * `process_query` given the vector store's texts and distances: refuse with the "not found"
   * text without asking the model, or ask the model with the non-empty admitted list (so the
   * empty-context guard of `generate_answer` never fires here).
   */
  method ProcessQuery(query: string, texts: seq<string>, distances: seq<real>, llm: string -> Reply)
    returns (answer: string)
    ensures var keywords := ExtractKeywords(query);
      match Gate(texts, distances, keywords, Config.RelevanceThreshold)
      case NotFound => answer == Config.NotFoundAnswer
      case Answerable(context) =>
        context != [] && answer == RenderReply(llm(Prompt(query, context)))
  {
    var keywords := ExtractKeywords(query);
    var relevant := FilterCandidates(texts, distances, keywords, Config.RelevanceThreshold);
    if relevant == [] || (distances != [] && distances[0] > Config.RelevanceThreshold) {
      return Config.NotFoundAnswer;
    }
    answer := GenerateAnswer(query, relevant, llm);
  }

  /** The sentences one fetched page contributes: none unless its content is a non-empty string. */
  function PageSentences(content: Option<string>): seq<string>
  {
    match content
    case Some(text) => if text != "" then SplitIntoSentences(text) else []
    case None => []
  }

  /** The sentences of all links, page after page in link order. */
  function LoadedSentences(links: seq<string>, fetch: string -> Option<string>): seq<string>
    decreases |links|
  {
    if links == [] then [] else PageSentences(fetch(links[0])) + LoadedSentences(links[1..], fetch)
  }

  /** `load_content_from_links`: fetch each link and extend the list with its sentences. */
  method LoadContentFromLinks(links: seq<string>, fetch: string -> Option<string>)
    returns (allSentences: seq<string>)
    ensures allSentences == LoadedSentences(links, fetch)
  {
    allSentences := [];
    for i := 0 to |links|
      invariant allSentences == LoadedSentences(links[..i], fetch)
    {
      var content := fetch(links[i]);
      LoadedOneMore(links, i, fetch);
      if content.Some? && content.value != "" {
        var sentences := SplitIntoSentences(content.value);
        allSentences := allSentences + sentences;
      }
    }
    assert links[..|links|] == links;
  }

  lemma LoadedOneMore(links: seq<string>, i: nat, fetch: string -> Option<string>)
    requires i < |links|
    ensures LoadedSentences(links[..i + 1], fetch) == LoadedSentences(links[..i], fetch) + PageSentences(fetch(links[i]))
  {
    PrefixOneMore(links, i);
    LoadedSingle(links[i], fetch);
    LoadedSentencesAppend(links[..i], [links[i]], fetch);
  }

  lemma PrefixOneMore(links: seq<string>, i: nat)
    requires i < |links|
    ensures links[..i + 1] == links[..i] + [links[i]]
  {
  }

  lemma LoadedSingle(link: string, fetch: string -> Option<string>)
    ensures LoadedSentences([link], fetch) == PageSentences(fetch(link))
  {
    assert LoadedSentences([link], fetch) == PageSentences(fetch(link)) + LoadedSentences([], fetch);
  }

  /** Loading two batches of links gives the first batch's sentences followed by the second's. */
  lemma {:induction false} LoadedSentencesAppend(a: seq<string>, b: seq<string>, fetch: string -> Option<string>)
    ensures LoadedSentences(a + b, fetch) == LoadedSentences(a, fetch) + LoadedSentences(b, fetch)
    decreases |a|
  {
    if a == [] {
      assert a + b == b;
    } else {
      assert (a + b)[0] == a[0] && (a + b)[1..] == a[1..] + b;
      LoadedSentencesAppend(a[1..], b, fetch);
    }
  }

  /** Every loaded sentence is non-empty and stripped. */
  lemma {:induction false} LoadedSentencesStripped(links: seq<string>, fetch: string -> Option<string>)
    ensures forall k :: 0 <= k < |LoadedSentences(links, fetch)| ==>
      LoadedSentences(links, fetch)[k] != "" && Strip(LoadedSentences(links, fetch)[k]) == LoadedSentences(links, fetch)[k]
    decreases |links|
  {
    if links != [] {
      LoadedSentencesStripped(links[1..], fetch);
      var here, rest := PageSentences(fetch(links[0])), LoadedSentences(links[1..], fetch);
      assert LoadedSentences(links, fetch) == here + rest;
      forall k | 0 <= k < |here + rest|
        ensures (here + rest)[k] != "" && Strip((here + rest)[k]) == (here + rest)[k]
      {
        if k >= |here| {
          assert (here + rest)[k] == rest[k - |here|];
        } else {
          assert (here + rest)[k] == here[k];
        }
      }
    }
  }

  /** A link whose page could not be fetched, or came back empty, contributes nothing. */
  lemma {:induction false} FailedLinkContributesNothing(links: seq<string>, link: string, fetch: string -> Option<string>)
    requires fetch(link) == None || fetch(link) == Some("")
    ensures LoadedSentences(links, fetch) == LoadedSentences(RemoveLink(links, link), fetch)
    decreases |links|
  {
    if links != [] {
      var tail := RemoveLink(links[1..], link);
      FailedLinkContributesNothing(links[1..], link, fetch);
      assert LoadedSentences(links, fetch) == PageSentences(fetch(links[0])) + LoadedSentences(tail, fetch);
      if links[0] != link {
        var kept := RemoveLink(links, link);
        assert kept == [links[0]] + tail;
        assert kept != [] && kept[0] == links[0] && kept[1..] == tail;
        assert LoadedSentences(kept, fetch) == PageSentences(fetch(links[0])) + LoadedSentences(tail, fetch);
      } else {
        assert PageSentences(fetch(links[0])) == [];
        assert RemoveLink(links, link) == tail;
      }
    }
  }

  /** The links without any occurrence of `link`. */
  function RemoveLink(links: seq<string>, link: string): (r: seq<string>)
    decreases |links|
  {
    if links == [] then []
    else (if links[0] == link then [] else [links[0]]) + RemoveLink(links[1..], link)
  }

  /** Worked example: both signals present, the nearest candidate close: answer from the keyword match. */
  lemma GateExampleAnswers()
    ensures Gate(["elma kırmızıdır", "araba hızlıdır"], [0.2, 0.9], ["elma"], 0.5)
         == Answerable(["elma kırmızıdır"])
  {
    ExampleRelevance();
    assert Admitted(["elma kırmızıdır", "araba hızlıdır"][1..], [0.2, 0.9][1..], ["elma"], 0.5) == [];
  }

  /** Worked example: the same candidates with threshold 0.1: the nearest distance 0.2 vetoes the answer. */
  lemma GateExampleVeto()
    ensures Gate(["elma kırmızıdır", "araba hızlıdır"], [0.2, 0.9], ["elma"], 0.1) == NotFound
  {
  }

  lemma ExampleRelevance()
    ensures IsSentenceRelevant("elma kırmızıdır", ["elma"])
  {
    assert LowerStr("elma kırmızıdır")[..4] == "elma";
    assert Contains(LowerStr("elma kırmızıdır"), "elma");
  }
}
