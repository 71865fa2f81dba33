# RAG link question-answering: relevance pipeline in Dafny

This project models the deterministic part of a small retrieval-augmented question-answering
program (`chromaTest.py`). The program fetches web pages, cuts their text into sentences,
stores the sentences in a vector database, and answers questions from the sentences nearest to
the query. The model covers five pieces:

- sentence segmentation (`TextProcessor.split_into_sentences`);
- keyword extraction with the fixed stop-word list (`TextProcessor.extract_keywords`);
- the lexical relevance test (`TextProcessor.is_sentence_relevant`);
- the relevance gate and answer decision of `RAGSystem.process_query`, including the veto that
  refuses when the nearest retrieved sentence is too far away;
- the list logic around them: `RAGSystem.load_content_from_links`, the link-acceptance loop
  of `get_links_from_user`, and the empty-context guard, prompt and reply handling of
  `LLMService.generate_answer`.

Page fetching, the vector store and the language-model call are inputs. Fetching is the
function `fetch: string -> Option<string>`. The vector-store result is two sequences: the
retrieved texts and their cosine distances, as `real`. The model's HTTP call is the function
`llm: string -> Reply`. The lines the user types are a sequence of strings.

Modules, one per part of the source:

- `Chars`: per-character lowercasing and Python's whitespace table.
- `Text`: the Python string operations used, written out: `strip`, `split()`, `join`,
  `startswith`, and the `in` substring test.
- `Config`: the constants of class `Config` and the literal strings of the code.
- `TextProcessor`: the three static methods.
- `LlmService`: `generate_answer` without its network call.
- `RagSystem`: the gate, `process_query` and `load_content_from_links`.
- `UserInput`: `get_links_from_user`.
- `Wrappers`: `Option`.

The three loops of the source are methods, each proved equal to a recursive function:
`FilterCandidates` (the loop that fills `relevant_sentences`), `LoadContentFromLinks` and
`GetLinksFromUser`. The facts the source relies on are lemmas about those functions. The
single-expression methods of `TextProcessor` are functions.

Details of the code that the model keeps as they are:

- The prompt uses the code's Turkish labels `Soru:`, `Bağlam:` and `Yanıt:`.
- Keywords are a list: order and duplicates are kept.
- An empty keyword list admits no sentence; there is no distance-only fallback.
- A line is accepted when it starts with `http`, so `httpfoo` is accepted too.
- A reply without a `response` field yields the same "not found" text as a refusal by the gate.

The first-distance veto is modelled as the code has it: `distances[0]` is compared with the
threshold whether or not the first sentence was admitted. `VetoOverridesAdmission` shows an
input where this refuses although a sentence was admitted. `VetoRedundantWhenAscending` shows
that the veto changes nothing when the distances are ascending, which is the order the vector
store returns.

## Model

| member | source | states |
|---|---|---|
| Chars.IsSpace | chromaTest.py:71 | the whitespace `split()` and `strip()` treat as separators; what stripping and splitting keep and drop is stated by `Text.StripSlice`, `Text.TakeWord` and `Text.Words` |
| Chars.Lower | chromaTest.py:76 | per-character `lower()`; `Chars.LowerIdempotent` and `Chars.LowerKeepsSpace` state what the proofs use of it |
| Chars.LowerIdempotent | chromaTest.py:76 | lowercasing a character twice is lowercasing it once |
| Chars.LowerKeepsSpace | chromaTest.py:76 | lowercasing leaves the space unchanged, so lowering a space-joined list lowers each element |
| Text.LowerStr | chromaTest.py:76 | `str.lower()` character by character; `Text.LowerStrIsLower` states its length, that its result is lower case, and idempotence |
| Text.LowerStrIsLower | chromaTest.py:76 | `lower()` keeps the length, and its result is already lower case, so lowering again changes nothing |
| Text.IsPrefix | chromaTest.py:226 | `startswith`: the string begins with the given prefix |
| Text.Contains | chromaTest.py:84 | the `in` substring test as a left-to-right scan; `Text.ContainsAt` proves it equivalent to some slice matching |
| Text.ContainsAt | chromaTest.py:84 | the left-to-right substring scan succeeds exactly when some slice of the string equals the needle |
| Text.StripLeft | chromaTest.py:71 | the result is no longer than the input and is empty or starts with a non-space |
| Text.StripLeftDropsSpaces | chromaTest.py:71 | `lstrip()` keeps a suffix of the input and everything it drops is whitespace |
| Text.StripRight | chromaTest.py:71 | the result is no longer than the input and is empty or ends with a non-space |
| Text.StripRightDropsSpaces | chromaTest.py:71 | `rstrip()` keeps a prefix of the input and everything it drops is whitespace |
| Text.StripIsStripped | chromaTest.py:71 | neither end of `strip()`'s result is whitespace |
| Text.Strip | chromaTest.py:71 | `strip()` as `rstrip()` after `lstrip()`; `Text.StripSlice`, `Text.StripIsStripped` and `Text.StripIdempotent` state what it keeps and drops |
| Text.StripSlice | chromaTest.py:71 | `strip()` keeps one slice with only whitespace around it; neither end of the result is whitespace; the result is empty exactly when the input is all whitespace |
| Text.StripStripped | chromaTest.py:71 | a string with no whitespace at either end is its own strip |
| Text.StripIdempotent | chromaTest.py:71 | stripping twice is stripping once |
| Text.TakeWord | chromaTest.py:76 | the first word is the longest whitespace-free prefix |
| Text.Words | chromaTest.py:76 | `split()` yields only non-empty, whitespace-free words |
| Text.WordsCharsFrom | chromaTest.py:76 | every character of every word comes from the input |
| Text.WordsOfJoin | chromaTest.py:76 | splitting a space-joined list of non-empty whitespace-free words gives back the list |
| Text.WordsOfSpaces | chromaTest.py:76 | a string of whitespace only has no words |
| Text.WordsOfWord | chromaTest.py:76 | a non-empty string without whitespace is exactly one word |
| Text.WordsAfterSpaces | chromaTest.py:76 | leading whitespace does not change the words |
| Text.WordsSplitAtSpaces | chromaTest.py:76 | the words of `a + sp + b`, for a non-empty run of whitespace `sp`, are the words of `a` followed by those of `b`; with the two lemmas above this fixes `split()` on every input, so no word is lost, duplicated or reordered |
| Text.Join | chromaTest.py:136 | `sep.join(xs)`; `Text.JoinContainsEach` states that each element occurs in the result, `Text.WordsOfJoin` and `TextProcessor.FragmentsOfJoin` that splitting undoes it |
| Text.JoinContainsEach | chromaTest.py:136 | every element of a joined list occurs in the joined string |
| TextProcessor.Separator | chromaTest.py:70 | the boundary `". "` that `split_into_sentences` cuts at |
| TextProcessor.Fragments | chromaTest.py:70 | `split('. ')` yields at least one piece, and the first piece is a prefix of the text |
| TextProcessor.JoinFragments | chromaTest.py:70 | joining the pieces with `". "` gives back the text |
| TextProcessor.FragmentsAvoidSeparator | chromaTest.py:70 | no piece contains `". "` |
| TextProcessor.FragmentsOfJoin | chromaTest.py:70 | splitting a `". "`-joined non-empty list of separator-free pieces gives back the list |
| TextProcessor.KeepStripped | chromaTest.py:71 | the comprehension yields no more items than fragments, each non-empty with no whitespace at either end |
| TextProcessor.KeepStrippedIsFilter | chromaTest.py:71 | the comprehension's result is an order-preserving subsequence of the stripped fragments, has every non-empty stripped fragment as often as it occurs, and has no empty string |
| TextProcessor.SplitIntoSentences | chromaTest.py:66-71 | empty text gives no sentences; every sentence is non-empty with no whitespace at either end |
| TextProcessor.SentencesAreOwnStrip | chromaTest.py:71 | every sentence is equal to its own strip |
| TextProcessor.SentencesAreStrippedFragments | chromaTest.py:70-71 | the sentences are, in order and with their multiplicities, exactly the non-empty stripped `". "`-pieces of the text |
| TextProcessor.SentencesOccurInText | chromaTest.py:66-71 | every sentence occurs in the text |
| TextProcessor.SplitWithoutSeparator | chromaTest.py:68-71 | text without `". "` gives `[strip(text)]`, or nothing when it strips to empty |
| TextProcessor.SplitOfSegmented | chromaTest.py:66-71 | joining stripped, non-empty, separator-free sentences with `". "` and segmenting again gives back the same sentences |
| TextProcessor.RemoveStopwords | chromaTest.py:77 | the filter returns no stop word and no more words than it was given |
| TextProcessor.RemoveStopwordsIsFilter | chromaTest.py:77 | the filter keeps an order-preserving subsequence with each non-stop word as often as in the input, so duplicates survive |
| TextProcessor.ExtractKeywords | chromaTest.py:74-78 | lower, split on whitespace, drop stop words; specified by `TextProcessor.KeywordsAreFilteredTokens`, `TextProcessor.KeywordsIdempotent` and `TextProcessor.KeywordsExample` |
| TextProcessor.KeywordsAreFilteredTokens | chromaTest.py:74-78 | the keywords are an order-preserving subsequence of the lowercased tokens, no longer than them, with each non-stop token kept as often as it occurs; each keyword is non-empty, whitespace-free, lower case and not a stop word |
| TextProcessor.KeywordsExample | chromaTest.py:32 | the query `nedir bu bilgi` has the single keyword `bilgi` |
| TextProcessor.KeywordsIdempotent | chromaTest.py:74-78 | extracting keywords from the space-joined keywords gives the same keywords |
| TextProcessor.AnyOccurs | chromaTest.py:84 | the `any` over keywords holds exactly when some keyword occurs in the string |
| TextProcessor.IsSentenceRelevant | chromaTest.py:81-84 | never relevant for an empty keyword list; relevant exactly when some keyword is a substring of the lowercased sentence |
| TextProcessor.RelevantIffSlice | chromaTest.py:81-84 | relevant exactly when some keyword equals a slice of the lowercased sentence |
| TextProcessor.RelevanceIgnoresCase | chromaTest.py:83-84 | lowercasing the sentence first does not change the verdict |
| LlmService.Prompt | chromaTest.py:136-137 | the Turkish-labelled prompt with the context joined by single spaces; `LlmService.PromptCarriesContext` states that it carries the question and every sentence |
| LlmService.RenderReply | chromaTest.py:152-161 | how each kind of reply becomes the answer; `LlmService.AnswerKinds` and `LlmService.MissingResponseIsNotFound` state its outcomes |
| LlmService.GenerateAnswer | chromaTest.py:131-161 | the empty-context guard, then the rendered reply to the prompt; specified by `LlmService.AnswerKinds` and `LlmService.AnswerDependsOnlyOnReply` |
| LlmService.MissingResponseIsNotFound | chromaTest.py:152-153 | a reply without a `response` field gives the "not found" text |
| LlmService.AnswerKinds | chromaTest.py:131-161 | the answer is "not found", the connection-failure text, the generic-failure text, or the model's stripped response; it never has whitespace at either end |
| LlmService.AnswerDependsOnlyOnReply | chromaTest.py:133-137 | with no context the answer is "not found" whatever the model would say; otherwise the answer depends only on the model's reply to this prompt |
| LlmService.PromptCarriesContext | chromaTest.py:136-137 | the prompt contains the question and every context sentence |
| RagSystem.Admits | chromaTest.py:204-205 | a pair is admitted when the sentence passes the keyword test and its distance is at most the threshold |
| RagSystem.Admitted | chromaTest.py:202-206 | the zip of texts and distances filtered by both tests, in order; specified by `RagSystem.AdmittedIsSubsequence`, `RagSystem.AdmittedSound`, `RagSystem.AdmittedComplete` and `RagSystem.AdmittedEmptyIff` |
| RagSystem.FilterCandidates | chromaTest.py:202-206 | the loop's list equals the sentences admitted by the zip-and-filter specification |
| RagSystem.AdmittedIsSubsequence | chromaTest.py:203-206 | the admitted list is an order-preserving subsequence of the texts, no longer than the texts or the distances, because `zip` truncates |
| RagSystem.AdmittedSound | chromaTest.py:204-206 | every admitted sentence is a text at a position where it passes the keyword test and its own distance is at most the threshold |
| RagSystem.AdmittedComplete | chromaTest.py:203-206 | every text at a position within both lists that passes both tests is admitted |
| RagSystem.AdmittedEmptyIff | chromaTest.py:202-206 | nothing is admitted exactly when no position within both lists passes both tests |
| RagSystem.AdmittedSingle | chromaTest.py:203-206 | one pair contributes its sentence exactly when it passes both tests |
| RagSystem.AdmittedAppend | chromaTest.py:203-206 | for two batches of pairs, the admitted list of the whole is that of the first batch followed by that of the second, so every passing pair contributes its own copy, in retrieval order |
| RagSystem.Decide | chromaTest.py:211-214 | the refusal test of line 211 on the admitted list and the first distance; characterised by `RagSystem.GateRefusesIff` |
| RagSystem.Gate | chromaTest.py:202-214 | admission followed by the decision; specified by `RagSystem.GateRefusesIff`, `RagSystem.GateRefusesWithoutInput` and `RagSystem.VetoRedundantWhenAscending` |
| RagSystem.GateRefusesIff | chromaTest.py:202-214 | the gate refuses exactly when no position passes both tests or the first distance exceeds the threshold; when it answers, the context is the non-empty admitted list |
| RagSystem.GateRefusesWithoutInput | chromaTest.py:200-212 | an empty keyword list, no texts or no distances means nothing is admitted and the gate refuses |
| RagSystem.VetoRedundantWhenAscending | chromaTest.py:203-211 | with ascending distances the gate refuses exactly when nothing is admitted |
| RagSystem.VetoOverridesAdmission | chromaTest.py:211-212 | with a far, irrelevant first candidate and a close, relevant second one, a sentence is admitted but the gate still refuses |
| RagSystem.GateExampleAnswers | chromaTest.py:202-214 | candidates `elma kırmızıdır` at 0.2 and `araba hızlıdır` at 0.9 with keyword `elma` and threshold 0.5 answer from the first sentence alone |
| RagSystem.GateExampleVeto | chromaTest.py:211-212 | the same candidates with threshold 0.1 are refused |
| RagSystem.ProcessQuery | chromaTest.py:187-214 | refusal returns the "not found" text without using the model; otherwise the model is asked with the non-empty admitted list, so the empty-context guard of `generate_answer` never fires |
| RagSystem.PageSentences | chromaTest.py:179-181 | a page contributes the sentences of its content when the content is a non-empty string and nothing otherwise; used by `RagSystem.FailedLinkContributesNothing` |
| RagSystem.LoadedSentences | chromaTest.py:178-182 | the sentences of all links, page after page; specified by `RagSystem.LoadedSentencesAppend`, `RagSystem.LoadedSentencesStripped` and `RagSystem.FailedLinkContributesNothing` |
| RagSystem.LoadContentFromLinks | chromaTest.py:174-185 | the loop's list equals the in-order concatenation of the sentences of every link whose fetched content is a non-empty string |
| RagSystem.LoadedSentencesAppend | chromaTest.py:178-182 | loading two batches of links gives the first batch's sentences followed by the second's |
| RagSystem.LoadedSentencesStripped | chromaTest.py:180-182 | every loaded sentence is non-empty and its own strip |
| RagSystem.FailedLinkContributesNothing | chromaTest.py:179-180 | a link whose fetch fails or is empty can be dropped without changing the result |
| UserInput.IsStop | chromaTest.py:224 | a line stops link entry when it lowercases to `bitti` |
| UserInput.IsLink | chromaTest.py:226 | a line is accepted when it starts with `http` |
| UserInput.LinksFrom | chromaTest.py:222-229 | the links read from the typed lines: the `http` lines before the first `bitti`, or nothing when input ends first; specified by `UserInput.LinksUpToStop` and `UserInput.NoStopNoLinks` |
| UserInput.GetLinksFromUser | chromaTest.py:217-231 | the loop's result equals the link-entry specification over the typed lines |
| UserInput.LinksUpToStop | chromaTest.py:222-229 | entry stops at the first line that lowercases to `bitti`; the result is exactly the earlier lines that start with `http`, in order, whatever follows |
| UserInput.NoStopNoLinks | chromaTest.py:222-223 | without a stop line, input ends before link entry does |
| UserInput.AcceptedLines | chromaTest.py:226-227 | the lines that pass the `http` test, in order; specified by `UserInput.AcceptedLinesIsFilter` |
| UserInput.AcceptedLinesIsFilter | chromaTest.py:226-227 | the accepted lines are an order-preserving subsequence of the input, each starts with `http`, and every input line that starts with `http` is accepted |
| UserInput.AcceptedLinesSingle | chromaTest.py:226-227 | a single line is kept exactly when it starts with `http` |
| UserInput.AcceptedLinesAppend | chromaTest.py:226-227 | the accepted lines of `a + b` are those of `a` followed by those of `b`, so every `http` line is kept once per occurrence, in order |

## Left out

- `ContentFetcher.fetch_from_url` (HTTP GET and HTML parsing) is I/O. It is the parameter `fetch`.
- `fetch` is a function, so the model treats fetching as deterministic per URL: a link listed
  twice gets the same content both times, while the source fetches it afresh on each pass of
  the loop (line 179). `RagSystem.FailedLinkContributesNothing` relies on this, since it removes
  every occurrence of the link.
- `VectorStore` is left out: the embedding model, the chromadb collection, `add_sentences` and
  `query_similar` are foreign numeric code. A query result is given as two sequences. The
  unpacking of the result dictionary (lines 193-194) is therefore not modelled, and neither is
  the top-10 limit (`MAX_RESULTS`). Ascending order is assumed only where a lemma says so.
- The HTTP POST, JSON decoding and timeout of `generate_answer` are network I/O. They are the
  parameter `llm`, whose `Reply` says only which of the three outcomes occurred. Which exception
  class lands in which outcome is not modelled.
- `RAGSystem.__init__`, logging, the prompts and messages printed to the user, and `main`'s
  query loop are plumbing and output only.
- Chars.Lower: maps only ASCII capitals, Latin-1 capitals and Turkish Ğ and Ş. Python lowercases
  all of Unicode, and turns `İ` into two characters. The general proofs use only that lowering
  is idempotent (`Chars.LowerIdempotent`) and leaves the space unchanged (`Chars.LowerKeepsSpace`);
  the worked examples also use its values on the ASCII letters of their inputs.
- Chars.IsSpace: Python's whitespace table, written out for `split()` and `strip()`. Unicode
  categories beyond that table are not modelled.
- Distances are `real`. NaN and other float behaviour are not modelled.
- `get_links_from_user` raises an error when input ends before `bitti`. The model returns `None`
  in that case.
- A non-string `response` field in the model's JSON reply is not modelled.
