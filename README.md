# Adaptive learning assistant: assessment core in Dafny

This project models the assessment core of a small adaptive learning assistant:

- **VARK questionnaire.** It tallies Visual, Auditory, Read/write and Kinesthetic answers and picks the dominant style.
- **Key-concept extraction.** It extracts key concepts from uploaded study documents.
- **Quiz generation.** A language model answers in free text. The model parses each reply into a multiple-choice question and falls back to template questions when a reply cannot be parsed.
- **Baseline scoring.** It scores the console baseline quiz.
- **Knowledge graphs.** It builds a word knowledge graph for every readable document.
- **Web session.** It models the session state machine of the web application.

The application keeps one global `user_data` dictionary. The handlers `start_learning`, `learn` and `quiz` move it through five steps: vark, upload, baseline, follow-up and done.

Two specifications are each split across a function and a lemma. The function is the transition the methods are proved against, and the lemma states what that transition promises:

- `Answered` (the POST branch of `quiz`) is specified by `AnsweredSpec`.
- `AnswerVark` (one questionnaire answer) is specified by `AnswerVarkSpec`.

Modules, one per file:

- `Wrappers` holds `Option`.
- `Text` holds the string operations the source relies on, on ASCII:
  - `str.lower`/`upper`/`strip`/`find`/`split`;
  - `str.isalpha`;
  - `\b\w+\b` tokenising;
  - `" ".join`.
- `Seqs` holds sequence helpers:
  - `dict.fromkeys` order (`Distinct`);
  - list filters;
  - counting.
- `LearningStyle` models `assess_learning_style`.
- `KeyConcepts` models `extract_key_concepts`.
- `QuizGeneration` models three things:
  - the response parser;
  - `generate_questions_from_concepts`;
  - `assess_baseline_knowledge`.
- `ContentProcessing` models `build_knowledge_graph` and `process_documents`. The networkx graph is a small class `Graph`.
- `AssessmentSession` models the session. The dictionary is the class `UserData`, with one field per key; a key the dictionary may lack holds an `Option`. The global, which may not exist yet, is a nullable field of `App`.
  - Every handler branch is a method that changes those fields in place.
  - Each such method is specified by a function on `Snapshot`, the dictionary's contents at one moment. The session's properties are proved about those functions:
    - an invariant `Consistent`, kept by every transition;
    - the score a finished quiz records;
    - the concept a wrong answer blames.

The model treats these as inputs or parameters:

- **The language model** is a finite sequence of reply strings, consumed one per call. Running out of replies, or a loop the source never leaves, is `None`.
- **Console input** is a sequence of lines.
- **Form fields** are method parameters.
- **The directory listing and the per-format text extractors** are a sequence of names and three functions.
- **The loader, the concept extractor and the question generator called from `app.py`** are function parameters.

The model follows the code, apart from what "## Left out" lists (floating-point scores among them). That includes these details and the places where the code differs from the documented design:

- **Acceptance test.** The generator keeps a parsed reply when its correct part passes `correct_part in "ABCD"`. That is a substring test, not a letter test (`learning_assessment.py:94`, `:129`). The generator is written once, parameterised by a `Test`. `Generate` runs it with `AsWritten`, the source's test, and everything downstream uses that run: the baseline assessment, the marking loop and its `KeyError`. `Intended` is the one-letter test. Runs with it are proved well formed separately, and the Findings section compares the two.
- **Document order.** `process_documents` fills a dictionary in listing order, and the concept extractor joins its values in that order. The contents are therefore an ordered list of (file name, text) items (`SelectedItems`), and the key set is derived from it.
- **Shared concept list.** After a retry, `concepts` and `incorrect_concepts` are the same Python list (`app.py:66`), so a wrong answer appended at `app.py:107` lengthens both. `Snapshot.aliased` records that sharing. `Marked` appends to both lists while they are shared, and a regenerated quiz ends the sharing.
- **Final score.** The follow-up score overwrites `final_score` as it is. No maximum with the baseline is taken (`app.py:118`).
- **Follow-up step.** It moves to done once every question is answered, whatever the score.
- **Concept extraction.** It has no length bound on the corpus, no cap on the number of bigrams, and no embedding ranking. It has no placeholder concepts either: an empty corpus gives no concepts (`NoQualifyingTokens`).
- **Question generation.** It does not always return the requested number of questions. Its fallback loop can run forever (`GenerateStuck`).

## Model

| member | source | states |
|---|---|---|
| `LearningStyle.Tally` | learning_assessment.py:42-43 | a choice that is one of V, A, R, K gains exactly one point and every other counter is unchanged; the total grows by one exactly when the choice is a style |
| `LearningStyle.TallyAllCounts` | learning_assessment.py:34-43 | after the questionnaire each counter equals the number of answers naming that style, and the counters sum to at most the number of answers |
| `LearningStyle.Dominant` | learning_assessment.py:45 | `max(scores, key=scores.get)` returns one of the four styles with the largest count; among equal counts it returns the earliest of V, A, R, K, so every earlier style has strictly fewer votes |
| `LearningStyle.DominantCounts` | learning_assessment.py:37-45 | the dominant style of a set of answers was named at least as often as every style, and strictly more often than every style listed before it |
| `LearningStyle.AssessLearningStyle` | learning_assessment.py:32-48 | the loop over the questions returns the dominant style of the upper-cased console answers: the most-named style, with ties going to the earliest |
| `Text.JoinSplitOn` | learning_assessment.py:88 | joining the pieces of `str.split(c)` with `c` gives the text back |
| `Text.SplitOnJoin` | learning_assessment.py:88 | splitting pieces joined by `c` gives the pieces back when none contains `c` |
| `Seqs.DistinctOrder` | learning_assessment.py:68 | `dict.fromkeys` keeps each element once, in order of first occurrence |
| `KeyConcepts.ExtractKeyConcepts` | learning_assessment.py:50-70 | `extract_key_concepts` itself; its contract is carried by `ExtractKeyConceptsKinds`, `ExtractKeyConceptsOrder`, `ExtractKeyConceptsSaturation` and `NoQualifyingTokens` |
| `KeyConcepts.BigramsFromMembers` | learning_assessment.py:53-54 | the bigram list holds exactly the pairs of adjacent tokens that are both longer than 3 characters and alphabetic |
| `KeyConcepts.TopicBigramsMembers` | learning_assessment.py:58-63 | a topic concept is exactly a bigram of the text that contains the lower-cased topic and has no stopword as a token |
| `KeyConcepts.FillerWordsMembers` | learning_assessment.py:55-65 | an additional concept is exactly a qualifying token that is not a stopword and contains no stopword as a substring |
| `KeyConcepts.CandidatesDistinct` | learning_assessment.py:63-68 | the list before `dict.fromkeys` already has no repeats: bigrams hold a space and single words never do |
| `KeyConcepts.ExtractIsPrefix` | learning_assessment.py:64-68 | the result is a prefix of the candidates, at most `num_concepts` long, and all of the candidates when there are fewer |
| `KeyConcepts.ExtractKeyConceptsKinds` | learning_assessment.py:50-70 | at most `num_concepts` concepts, none repeated, each a topic bigram or an additional word, and every topic bigram comes before every word |
| `KeyConcepts.ExtractKeyConceptsOrder` | learning_assessment.py:58-68 | topic bigrams appear in order of first occurrence in the text, and so do the additional words |
| `KeyConcepts.ExtractKeyConceptsSaturation` | learning_assessment.py:64-68 | an eligible concept is left out only when `num_concepts` concepts were returned; with at least `num_concepts` topic bigrams the result is exactly the first `num_concepts` of them |
| `KeyConcepts.NoQualifyingTokens` | learning_assessment.py:52-55 | no documents, or no token that is both longer than 3 characters and alphabetic, gives no concepts |
| `QuizGeneration.OptionLineTest` | learning_assessment.py:90 | the source's line test (non-blank, a letter A to D first, a `)` somewhere) is the option-line predicate the model uses |
| `QuizGeneration.OptionsOfKeys` | learning_assessment.py:87-93 | a letter is an option key exactly when some option line starts with it |
| `QuizGeneration.OptionsOfValues` | learning_assessment.py:87-93 | the text stored for a letter is the one after the first `)` on the last line starting with that letter |
| `QuizGeneration.ReadOptions` | learning_assessment.py:87-93 | the loop over the option lines builds exactly that dictionary, with keys among A to D |
| `QuizGeneration.Parse` | learning_assessment.py:84-93 | a reply fails to parse (IndexError) exactly when it lacks one of `Question:`, `Options:`, `Correct:`; a parsed item's option keys are letters A to D |
| `QuizGeneration.ParseResponse` | learning_assessment.py:84-93 | the imperative parse agrees with `Parse` |
| `QuizGeneration.AsWrittenAcceptsUnmarkable` | learning_assessment.py:94 | the source's acceptance test takes an item whose correct answer is the empty string, which is not one of its options; the one-letter test rejects it |
| `QuizGeneration.AcceptsNarrower` | learning_assessment.py:94 | the one-letter test accepts exactly what the source's test accepts with a one-character correct part |
| `QuizGeneration.AsWrittenMarkable` | learning_assessment.py:94 | for an item of the source's shape, the correct part is an option key exactly when it is one character, and exactly then the item is well formed |
| `QuizGeneration.AcceptedIsWellFormed` | learning_assessment.py:94 | with the intended test, an accepted item has a question, all four options, and a correct answer that is one of them |
| `QuizGeneration.ConceptTemplate` | learning_assessment.py:100-108 | the per-concept fallback question is well formed with answer A |
| `QuizGeneration.TopicTemplate` | learning_assessment.py:133-140 | the topic fallback question is well formed with answer A |
| `QuizGeneration.Decide` | learning_assessment.py:94-111 | a parsed reply is kept exactly when it passes the given acceptance test (`correct_part in "ABCD"` in the source's run); an unparsable one is replaced by the fallback exactly when the fallback's text is unused; nothing kept repeats a used text |
| `QuizGeneration.ConceptPhase` | learning_assessment.py:77-111 | the loop over the concepts, one reply per concept until enough questions are kept; its contract is carried by `ConceptPhaseInv` |
| `QuizGeneration.TopicPhase` | learning_assessment.py:114-143 | the fallback `while` loop, one reply per round; its contract is carried by `TopicPhaseInv` and `GenerateStuck` |
| `QuizGeneration.ConceptPhaseInv` | learning_assessment.py:77-111 | the loop over the concepts keeps at most `num_questions` questions with distinct texts, all of the test's shape (for the source's test: a question, the options A to D, a correct part that is a substring of "ABCD"), the used set being their texts |
| `QuizGeneration.TopicPhaseInv` | learning_assessment.py:114-143 | when the fallback loop ends it holds exactly `num_questions` questions, with distinct texts and all of the test's shape |
| `QuizGeneration.GenerateWith` | learning_assessment.py:72-145 | `generate_questions_from_concepts` with a given acceptance test; its contract is carried by `GenerateWithSound` and `IntendedGenerateSound` |
| `QuizGeneration.Generate` | learning_assessment.py:72-145 | `generate_questions_from_concepts` with the source's test; its contract is carried by `GenerateSound`, `GenerateNone`, `GenerateStuck` and `GenerateTopicFallback` |
| `QuizGeneration.GenerateWithSound` | learning_assessment.py:72-145 | a finished run under either test returns exactly `num_questions` questions with distinct texts, each of that test's shape and taken from a reply or a fallback template |
| `QuizGeneration.GenerateSound` | learning_assessment.py:72-145 | a finished run of the source's generator returns exactly `num_questions` questions with distinct texts, each with a question, the options A to D and a correct part that is a substring of "ABCD", each from a reply or a fallback; a question is well formed exactly when its correct part is one letter |
| `QuizGeneration.IntendedGenerateSound` | learning_assessment.py:72-145 | with the one-letter test, a finished run returns exactly `num_questions` distinct questions, every one well formed |
| `QuizGeneration.GenerateNone` | learning_assessment.py:77-79 | asking for no questions returns none, whatever the replies |
| `QuizGeneration.GenerateStuck` | learning_assessment.py:114-143 | with no concepts, at least two questions asked for, and no parsable reply, the fallback text is used once and the loop never ends |
| `QuizGeneration.GenerateTopicFallback` | learning_assessment.py:114-143 | one question, no concepts and an unparsable first reply give exactly the topic fallback question |
| `QuizGeneration.AsWrittenRunKeepsUnmarkable` | learning_assessment.py:77-175 | one concept, one question and a first reply with an empty correct part: the source returns that question after one call, the one-letter test needs another call, and marking the question fails (`KeyError`) exactly for an answer that is not blank once stripped |
| `QuizGeneration.EmptyCorrectMarking` | learning_assessment.py:169-175 | a question whose correct part is empty is marked right for a blank answer and raises `KeyError` for any other |
| `QuizGeneration.TakeResponse` | learning_assessment.py:81-111 | one model call's reply is parsed and offered to the list as `Decide` rules with the source's test |
| `QuizGeneration.CollectForConcepts` | learning_assessment.py:77-111 | the loop over the concepts computes the source's concept phase, consuming one reply per concept until enough questions are kept |
| `QuizGeneration.FillFromTopic` | learning_assessment.py:114-143 | the `while` loop computes the source's fallback phase; running out of replies gives `None` |
| `QuizGeneration.GenerateQuestions` | learning_assessment.py:72-145 | the generator returns `Generate`'s result: exactly `num_questions` distinct questions of the source's shape, drawn from the replies and templates |
| `QuizGeneration.Matches` | learning_assessment.py:165-172 | the number of right answers is at most the number of questions |
| `QuizGeneration.Percent` | learning_assessment.py:177 | the score lies between 0 and 100, is 100 exactly when every answer is right and 0 exactly when none is |
| `QuizGeneration.WellFormedMarks` | learning_assessment.py:164-175 | marking well-formed questions never raises `KeyError` |
| `QuizGeneration.AsWrittenMarkingFails` | learning_assessment.py:164-175 | marking questions of the source's shape raises `KeyError` exactly when some answer is wrong on a question whose correct part is not one letter |
| `QuizGeneration.CountCorrect` | learning_assessment.py:164-175 | the answer loop counts the questions whose stripped, upper-cased answer equals the correct part, and stops with `KeyError` (`None`) exactly when a wrong answer meets a correct part that is not an option |
| `QuizGeneration.AssessBaselineKnowledge` | learning_assessment.py:147-179 | no content scores 0; otherwise the concepts come from the documents' texts in order, two questions are generated by the source's test, and the result is the percentage of right answers, between 0 and 100, or `None` when the generator never finishes or marking raises `KeyError` |
| `ContentProcessing.Words` | content_processing.py:78 | every word kept is longer than 3 characters, alphabetic and lower case |
| `ContentProcessing.WordsFromTokens` | content_processing.py:78 | the words are exactly the lower-cased whitespace tokens longer than 3 characters that are alphabetic |
| `ContentProcessing.MostCommon` | content_processing.py:79 | `Counter(words).most_common(k)`; its contract is carried by `MostCommonSpec` |
| `ContentProcessing.MostCommonSpec` | content_processing.py:79 | `most_common(k)` lists `min(k, distinct words)` distinct words of the text by decreasing count, ties in first-occurrence order, and every word left out ranks after all listed ones |
| `ContentProcessing.Graph.constructor` | content_processing.py:81 | a new graph has no nodes and no edges |
| `ContentProcessing.Graph.AddNode` | content_processing.py:83 | a new node is appended, a present node keeps its place, and the edges are unchanged |
| `ContentProcessing.Graph.AddEdge` | content_processing.py:85 | missing ends are added, `u` first, and the undirected edge joins the edge set |
| `ContentProcessing.PathEdgeEnds` | content_processing.py:81-85 | every edge joins two nodes of the graph |
| `ContentProcessing.PathAdjacency` | content_processing.py:81-85 | two of the common words are joined exactly when they are adjacent in the ranking |
| `ContentProcessing.PathEdgeCount` | content_processing.py:81-85 | `n` distinct words give `n - 1` edges, each joining two different words |
| `ContentProcessing.BuildKnowledgeGraph` | content_processing.py:76-87 | the graph's nodes are the most common words in rank order and its edges join consecutive ones |
| `ContentProcessing.SplitExt` | content_processing.py:55 | `os.path.splitext`: the extension starts at the last dot exactly when that dot lies after the last slash with a non-dot before it in the final component, and is empty otherwise; name and extension concatenate to the file name |
| `ContentProcessing.ReportExtension` | content_processing.py:55 | `docs/report.PDF` has extension `.PDF`, which lower-cases to the supported `.pdf` |
| `ContentProcessing.ExtractedSupported` | content_processing.py:55-64 | only a file whose lower-cased extension is `.pdf`, `.docx` or `.txt` yields text, and each of those yields its own extractor's text |
| `ContentProcessing.SelectedItems` | content_processing.py:45-68 | the items of `extracted_content` after the listing loop; its contract is carried by `SelectedOrder`, `SelectedTexts` and `SelectedFiles` |
| `ContentProcessing.RecordedMembers` | content_processing.py:53-68 | a name is in the list of recorded files exactly when it is listed and yields non-empty text |
| `ContentProcessing.SelectedOrder` | content_processing.py:45-68 | the dictionary's keys are the recorded files without repeats, in order of first listing |
| `ContentProcessing.SelectedTexts` | content_processing.py:59-67 | each item's value is its file's extracted text, which is never empty |
| `ContentProcessing.AssignKeepsTexts` | content_processing.py:67 | assigning a file its text keeps every value its own file's text |
| `ContentProcessing.SelectedFiles` | content_processing.py:53-71 | a file is recorded exactly when it is listed, has a supported extension and yields non-empty text |
| `ContentProcessing.ProcessDocuments` | content_processing.py:42-73 | a missing directory gives two empty dictionaries; otherwise the contents are the selected files' (name, text) items in dictionary order, and exactly the recorded files have a fresh graph that is `build_knowledge_graph` of its text with `max_nodes` 10 |
| `AssessmentSession.FirstMentionedSpec` | app.py:105-108 | the concept found is mentioned by the question (case-insensitively), none before it is, and none is found only when no concept is mentioned |
| `AssessmentSession.BlamedSpec` | app.py:104-108 | a wrong answer blames at most one concept: the earliest one the question mentions, or none |
| `AssessmentSession.BlameFirstMentioned` | app.py:105-108 | the `for ... break` loop appends exactly what `Blamed` says to `incorrect_concepts` |
| `AssessmentSession.Started` | app.py:32 | a new session is consistent, at the first VARK question, with four zero counters and no used questions |
| `AssessmentSession.AnswerVark` | app.py:43-52 | the VARK branch of POST `/learn` as a transition on the dictionary; its contract is carried by `AnswerVarkSpec` |
| `AssessmentSession.AnswerVarkSpec` | app.py:43-52 | a questionnaire answer keeps the session consistent, adds one point to a valid style only, counts the question, and after the last question stores the dominant style and moves to upload; nothing else changes |
| `AssessmentSession.Uploaded` | app.py:54-63 | the upload stores the loader's documents, reprocessed exactly when a named file came with the form, and moves to baseline; nothing else changes |
| `AssessmentSession.Retried` | app.py:65-67 | a retry makes the concepts the list of those answered wrong, the same list object from then on; nothing else changes |
| `AssessmentSession.RetryAliases` | app.py:65-108 | after a retry mid-quiz, a wrong answer appends the blamed concept to the shared list, so the concepts grow with the wrong answers, and the quiz is not regenerated |
| `AssessmentSession.Marked` | app.py:100-108 | the marking half of POST `/quiz`; its contract is carried by `AnsweredSpec` and `BlamedSpec` |
| `AssessmentSession.Advanced` | app.py:110-122 | the advancing half of POST `/quiz`; its contract is carried by `AnsweredSpec`, `AnswerRestFinishes` and `AnswerRestScores` |
| `AssessmentSession.Answered` | app.py:99-123 | the POST branch of `/quiz` as a transition on the dictionary; its contract is carried by `AnsweredSpec`, `AnsweredKeepsConsistent` and `WholeQuizScores` |
| `AssessmentSession.AnsweredSpec` | app.py:99-123 | an answer counts if right, otherwise blames the first concept the question mentions (also lengthening the concepts while they share the list); it advances the counter, and after the last question records the percentage as the step's score, resets both counters and moves to the next step |
| `AssessmentSession.AnsweredKeepsConsistent` | app.py:99-123 | an answer keeps the session consistent and never moves it back a step |
| `AssessmentSession.AnswerRestFinishes` | app.py:110-123 | answering every remaining question moves to the next step with both counters at zero |
| `AssessmentSession.AnswerRestScores` | app.py:100-123 | answering every remaining question records the percentage of right answers, counting those given before |
| `AssessmentSession.WholeQuizScores` | app.py:99-123 | a quiz answered from first to last question records the percentage of answers matching the correct letters |
| `AssessmentSession.Regenerated` | app.py:126-133 | the regeneration of the quiz stores on GET `/quiz`; its contract is carried by `RegeneratedSpec` |
| `AssessmentSession.RegeneratedSpec` | app.py:126-133 | a fresh quiz takes the extractor's concepts and the generator's questions and used set (given the baseline score, 0 before there is one); no concept is blamed, both counters are zero, and the session stays consistent |
| `AssessmentSession.RetryOverwritten` | app.py:126-133 | a retry right after the baseline is undone: the quiz page finds the counter at zero and regenerates from the extractor's concepts, dropping the narrowed list |
| `AssessmentSession.LearnPage` | app.py:69-90 | the learn page redirects to the start without a session; it shows the current VARK question, the upload page at upload, the redirect to the quiz at follow-up, and the done page with the stored scores exactly when a done session has both (a missing score is the `KeyError` error); the unexpected-step page appears exactly at the baseline step |
| `AssessmentSession.UserData.constructor` | app.py:32 | the dictionary built from the form is `Started` and consistent |
| `AssessmentSession.UserData.RecordVarkAnswer` | app.py:43-52 | the in-place updates of the VARK branch give `AnswerVark` of the old contents and keep the dictionary consistent |
| `AssessmentSession.UserData.StoreQuestionnaire` | app.py:44-52 | writes the tallied counters, the counter, and, after the last question, the style and step; nothing else changes |
| `AssessmentSession.UserData.StoreUpload` | app.py:54-63 | the upload branch's updates give `Uploaded` of the old contents |
| `AssessmentSession.UserData.Retry` | app.py:65-67 | the retry branch's update gives `Retried` of the old contents: the concepts become the incorrect list and are shared with it |
| `AssessmentSession.UserData.MarkAnswer` | app.py:100-108 | marking updates either `correct` or `incorrect_concepts` as `Marked` says |
| `AssessmentSession.UserData.Advance` | app.py:110-122 | advancing updates the counter, and at the end the score, step and counters, as `Advanced` says |
| `AssessmentSession.UserData.RecordAnswer` | app.py:99-123 | the POST branch of `quiz` gives `Answered` of the old contents and keeps the dictionary consistent |
| `AssessmentSession.UserData.Install` | app.py:126-133 | writes the fresh quiz stores: the concepts, a new empty blame list no longer shared with them, the questions and used set, both counters at zero; nothing else changes |
| `AssessmentSession.UserData.PrepareQuiz` | app.py:126-133 | when there are no questions or the counter is zero, the stores are those of `Regenerated`; otherwise nothing changes |
| `AssessmentSession.App.StartPost` | app.py:26-33 | POST `/start` replaces the global with a fresh `Started` dictionary and redirects to `learn` |
| `AssessmentSession.App.LearnGet` | app.py:69-90 | GET `/learn` answers the page `LearnPage` gives for the current dictionary |
| `AssessmentSession.App.LearnPost` | app.py:36-90 | POST `/learn` applies the branch of the current step (VARK answer, upload, retry) and redirects, or falls through to the page; the step never moves back and the dictionary stays consistent |
| `AssessmentSession.App.QuizPost` | app.py:92-124 | POST `/quiz` outside a quiz step sends the user to the start; a missing question or counter past the end is an error; otherwise the answer is recorded and the next page is the quiz, or `learn` after the last question |
| `AssessmentSession.App.QuizGet` | app.py:92-137 | GET `/quiz` outside a quiz step sends the user to the start; otherwise it regenerates when due and shows question `q_index` with the step's heading, or fails when there is none |

## Left out

- Text: `str.lower`, `str.upper`, `str.isalpha` and the `\w` class are modelled on ASCII letters and digits only. Python's Unicode case mapping and Unicode letter classes are not modelled.
- `Text.IsSpace`, `Text.Strip`, `Text.SplitWhitespace`: whitespace is Python's ASCII whitespace (space, `\t`, `\n`, `\r`, `\x0b`, `\x0c`, `\x1c`-`\x1f`). Python's `str.strip()` and `str.split()` also treat Unicode whitespace as space (`\x85`, `\xa0`, `\u1680`, `\u2000`-`\u200a`, `\u2028`, `\u2029`, `\u202f`, `\u205f`, `\u3000`), and this model does not.
- Console printing, the debug output, the warning about topic alignment (learning_assessment.py:157-160), and the `__main__` blocks are output only and are not modelled.
- The language model, the embedding model, the vector database (`setup_vector_db`, `search_vector_db`), the PDF/DOCX/TXT readers and the user database (`update_user_profile`) are external services.
  - The model calls are a finite sequence of replies.
  - The readers are function parameters.
  - The database and vector store are not modelled.
- `app.py` imports `generate_mind_map`, `search_web`, `load_or_process_documents`, `review_progress` and others, which are not defined in `learning_assessment.py`. These calls are not part of this model:
  - the loader is a parameter;
  - the web search result is a parameter;
  - the mind map and progress review have no effect on the dictionary.
- `app.py` calls some functions with a different signature from the one defined in `learning_assessment.py`:
  - app.py:86 passes five arguments to `update_user_profile`;
  - app.py:127 passes the embedding model as `num_concepts`;
  - app.py:130 passes a baseline score and a used set to the question generator.

  These calls are modelled as opaque parameters (`extract`, `generate`, `load`) rather than as the functions of this model.
- Flask rendering, URL building, the file save of the upload, the `/`, `/progress` and static routes are web plumbing and are not modelled. A page is a `Response` value.
- `process_documents` creates the missing directory. That side effect is not modelled; the result (two empty dictionaries) is.
- `QuizGeneration.GenerateQuestions`, `QuizGeneration.FillFromTopic`: a run of the source that calls the model forever is `None`. A run that needs more replies than supplied is also `None`. The model does not distinguish the two.
- `QuizGeneration.AssessBaselineKnowledge`: it returns `Some(0.0)` for no content, where the source returns the integer `0`.
- Integers are unbounded; the source uses Python integers, so no wrap-around exists to model.
- `QuizGeneration.Percent`, `AssessmentSession.Advanced`: scores are exact rationals (`real`). The source computes `(correct / len(questions)) * 100` in binary floating point (learning_assessment.py:177, app.py:112), rounding to the nearest double at `/` and again at `* 100`. One right answer out of three stores `33.33333333333333` there and exactly 100/3 here. The bounds and the two iff's that `Percent` states hold for the rounded value too; the value itself is not modelled bit for bit.

## Findings

| source | as written | input that shows it | evidently intended | confidence | as-written member | corrected member |
|---|---|---|---|---|---|---|
| learning_assessment.py:94 | `correct_part in "ABCD"` (also at line 129) is a substring test, so `""`, `"AB"` or `"BCD"` pass as the correct answer | a reply ending in `Correct:` followed by nothing, with four options: the stored correct answer is `""`, which is no option key; a blank answer then counts as right, and any other answer raises `KeyError` at line 175 | the correct answer is one of the four letters | not executed | `QuizGeneration.AsWrittenAcceptsUnmarkable`, `QuizGeneration.AsWrittenRunKeepsUnmarkable` | `QuizGeneration.IntendedGenerateSound`, `QuizGeneration.AcceptedIsWellFormed` |
