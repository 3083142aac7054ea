/**
 * The web application's session: one global `user_data` dictionary that the
 * `start_learning`, `learn` and `quiz` handlers create, read and update,
 * moving it through the steps vark, upload, baseline, follow-up and done.
 * The dictionary is the class `UserData`, with a field per key (a key it may
 * lack holds an `Option`), and the global, which does not exist before the
 * first start, is a nullable field of `App`. The handlers change the fields
 * in place; each change is specified by a function on `Snapshot`, the
 * dictionary's contents at one moment, and the properties of the session are
 * proved about those functions. Form values are parameters, the page a
 * handler shows or the route it redirects to is its result, and the document
 * loader, the concept extractor, the question generator and the web search
 * are parameters standing for calls this model does not see.
 */
module AssessmentSession {
  import opened Wrappers
  import opened Text
  import opened LearningStyle
  import opened QuizGeneration

  datatype Step = Vark | Upload | Baseline | FollowUp | Done

  /** The position of a step in the session; a session only moves forward. */
  function StepRank(step: Step): nat {
    match step
    case Vark => 0
    case Upload => 1
    case Baseline => 2
    case FollowUp => 3
    case Done => 4
  }

  /** The heading `user_data['step'].capitalize()` gives the quiz page. */
  function Phase(step: Step): string {
    match step
    case Baseline => "Baseline"
    case FollowUp => "Follow-up"
    case _ => []
  }

  datatype Route = StartRoute | LearnRoute | QuizRoute

  /** What a handler answers: a redirect, a rendered page, or an exception (KeyError, IndexError). */
  datatype Response =
    | Redirect(to: Route)
    | VarkPage(questionIndex: nat)
    | UploadPage
    | DonePage(name: Option<string>, topic: Option<string>, baseline: real, final: real, resources: string)
    | UnexpectedStepPage
    | QuizPage(question: string, options: map<string, string>, phase: string)
    | ServerError

  /** `concept.lower() in question.lower()`. */
  predicate Mentions(question: string, concept: string) {
    Contains(Lower(question), Lower(concept))
  }

  /** The concept the `for ... break` loop of a wrong answer picks: the first one the question mentions. */
  function FirstMentioned(concepts: seq<string>, question: string): (r: Option<nat>)
    ensures r.Some? ==> r.value < |concepts|
    decreases |concepts|
  {
    if concepts == [] then None
    else if Mentions(question, concepts[0]) then Some(0)
    else match FirstMentioned(concepts[1..], question)
      case None => None
      case Some(k) => Some(k + 1)
  }

  /** The index found is of a concept the question mentions, none before it is, and there is none only when no concept is mentioned. */
  lemma {:induction false} FirstMentionedSpec(concepts: seq<string>, question: string)
    ensures var r := FirstMentioned(concepts, question);
            && (r.Some? ==> Mentions(question, concepts[r.value]))
            && (r.Some? ==> forall j :: 0 <= j < r.value ==> !Mentions(question, concepts[j]))
            && (r.None? <==> forall j :: 0 <= j < |concepts| ==> !Mentions(question, concepts[j]))
    decreases |concepts|
  {
    if concepts != [] && !Mentions(question, concepts[0]) {
      FirstMentionedSpec(concepts[1..], question);
      assert forall j :: 1 <= j < |concepts| ==> concepts[j] == concepts[1..][j - 1];
    }
  }

  /** What a wrong answer appends to `incorrect_concepts`: at most one concept of the quiz; BlamedSpec says which. */
  function Blamed(concepts: seq<string>, question: string): (r: seq<string>)
    ensures |r| <= 1
    ensures forall c :: c in r ==> c in concepts
  {
    match FirstMentioned(concepts, question)
    case None => []
    case Some(k) => [concepts[k]]
  }

  /**
   * A wrong answer blames a concept the question mentions, nothing when it
   * mentions none, and otherwise the earliest concept it mentions.
   */
  lemma BlamedSpec(concepts: seq<string>, question: string)
    ensures var r := Blamed(concepts, question);
            && (forall c :: c in r ==> Mentions(question, c))
            && (r == [] <==> forall j :: 0 <= j < |concepts| ==> !Mentions(question, concepts[j]))
            && (r != [] ==>
                  exists i :: 0 <= i < |concepts| && r == [concepts[i]] && forall j :: 0 <= j < i ==> !Mentions(question, concepts[j]))
  {
    FirstMentionedSpec(concepts, question);
  }

  /**
   * The contents of the `user_data` dictionary at one moment; a key it may
   * lack is an `Option`. The content dictionary is its (file name, text)
   * items in insertion order. `aliased` records that the `concepts` and
   * `incorrect_concepts` keys hold one list object, as they do after a retry,
   * so that appending to one appends to both.
   */
  datatype Snapshot = Snapshot(
    name: Option<string>,
    topic: Option<string>,
    step: Step,
    scores: Scores,
    usedQuestions: set<string>,
    varkQ: nat,
    style: Option<string>,
    content: Option<seq<(string, string)>>,
    concepts: Option<seq<string>>,
    incorrectConcepts: Option<seq<string>>,
    questions: Option<seq<QuizItem>>,
    qIndex: Option<nat>,
    correct: Option<nat>,
    baselineScore: Option<real>,
    finalScore: Option<real>,
    aliased: bool)

  /** The quiz keys are written together, by the quiz page that generates the questions. */
  predicate QuizKeysTogether(d: Snapshot) {
    && d.concepts.Some? == d.questions.Some?
    && d.incorrectConcepts.Some? == d.questions.Some?
    && d.qIndex.Some? == d.questions.Some?
    && d.correct.Some? == d.questions.Some?
  }

  /** `0 <= correct <= q_index <= len(questions)`, and every blamed concept is a concept of the quiz. */
  predicate QuizCounters(d: Snapshot)
    requires QuizKeysTogether(d)
  {
    d.questions.Some? ==>
      && d.correct.value <= d.qIndex.value <= |d.questions.value|
      && forall c :: c in d.incorrectConcepts.value ==> c in d.concepts.value
  }

  /** A score the quiz records is a percentage. */
  predicate IsPercent(score: Option<real>) {
    score.Some? ==> 0.0 <= score.value <= 100.0
  }

  /**
   * What holds of `user_data` between requests: the keys each step has written
   * exist, the VARK counters count the answers so far, the style is the dominant
   * one once the questionnaire is over, and the quiz counters are in range.
   */
  predicate Consistent(d: Snapshot) {
    && IsScores(d.scores)
    && Total(d.scores) <= d.varkQ
    && (d.step == Vark <==> d.varkQ < VarkQuestionCount())
    && d.varkQ <= VarkQuestionCount()
    && (d.step == Vark <==> d.style.None?)
    && (d.step != Vark ==> d.style == Some(Dominant(d.scores)))
    && (StepRank(d.step) >= 2 <==> d.content.Some?)
    && (d.questions.Some? ==> StepRank(d.step) >= 2)
    && QuizKeysTogether(d)
    && QuizCounters(d)
    && (StepRank(d.step) >= 3 <==> d.baselineScore.Some?)
    && (StepRank(d.step) >= 3 ==> d.questions.Some?)
    && (d.step == Done <==> d.finalScore.Some?)
    && IsPercent(d.baselineScore)
    && IsPercent(d.finalScore)
    && (d.aliased ==> d.concepts == d.incorrectConcepts)
  }

  // ---------------------------------------------------------------------------
  // The transitions, as functions of the dictionary
  // ---------------------------------------------------------------------------

  /** The dictionary `start_learning` creates: all four counters at zero, at the first VARK question, nothing used yet. */
  function Started(name: Option<string>, topic: Option<string>): (d: Snapshot)
    ensures Consistent(d)
    ensures d.step == Vark && d.varkQ == 0 && d.usedQuestions == {}
    ensures forall k :: k in Styles ==> d.scores[k] == 0
    ensures d.name == name && d.topic == topic
  {
    ZeroScoresAreScores();
    Snapshot(name, topic, Vark, ZeroScores, {}, 0, None, None, None, None, None, None, None, None, None, false)
  }

  /** One questionnaire answer; AnswerVarkSpec says what it does. */
  function AnswerVark(d: Snapshot, choice: Option<string>): Snapshot
    requires Consistent(d) && d.step == Vark
  {
    var scores := if choice.Some? then Tally(d.scores, choice.value) else d.scores;
    var answered := d.varkQ + 1;
    if answered >= VarkQuestionCount() then
      d.(scores := scores, varkQ := answered, style := Some(Dominant(scores)), step := Upload)
    else
      d.(scores := scores, varkQ := answered)
  }

  /**
   * One questionnaire answer: a valid letter gains exactly one point, the
   * question counter gains one, and after the last question the style is the
   * dominant one (the earliest of V, A, R, K among equal counts) and the
   * session moves on to the upload. Nothing else changes.
   */
  lemma AnswerVarkSpec(d: Snapshot, choice: Option<string>)
    requires Consistent(d) && d.step == Vark
    ensures var r := AnswerVark(d, choice);
      && Consistent(r)
      && r.varkQ == d.varkQ + 1
      && (forall k :: k in Styles ==> r.scores[k] == d.scores[k] + (if choice == Some(k) then 1 else 0))
      && (r.varkQ >= VarkQuestionCount() <==> r.step == Upload)
      && (r.varkQ < VarkQuestionCount() <==> r.step == Vark)
      && (r.step == Upload ==> r.style.Some? && forall k :: k in Styles ==> r.scores[k] <= r.scores[r.style.value])
      && (r.step == Upload ==> forall i :: 0 <= i < |Styles| && Styles[i] == r.style.value ==>
            forall j :: 0 <= j < i ==> r.scores[Styles[j]] < r.scores[r.style.value])
      && r.(scores := d.scores, varkQ := d.varkQ, style := d.style, step := d.step) == d
  {
  }

  /** Whether the upload form carries a file with a non-empty name, which forces the documents to be reprocessed. */
  predicate Forced(filename: Option<string>) {
    filename.Some? && filename.value != []
  }

  /** The upload: the loader's documents become the content, reprocessed if and only if a file came with the form, and the baseline quiz is next. */
  function Uploaded(d: Snapshot, filename: Option<string>, load: bool -> seq<(string, string)>): (r: Snapshot)
    requires Consistent(d) && d.step == Upload
    ensures Consistent(r)
    ensures r.step == Baseline
    ensures r.content == Some(load(filename.Some? && filename.value != []))
    ensures r.(content := d.content, step := d.step) == d
  {
    d.(content := Some(load(Forced(filename))), step := Baseline)
  }

  /**
   * A retry from the follow-up step: the concepts become the list of the ones
   * answered wrong, that very list, so the two keys are aliased from now on.
   */
  function Retried(d: Snapshot): (r: Snapshot)
    requires Consistent(d) && d.step == FollowUp
    ensures Consistent(r)
    ensures r.concepts == d.incorrectConcepts && r.aliased
    ensures r.(concepts := d.concepts, aliased := d.aliased) == d
  {
    d.(concepts := d.incorrectConcepts, aliased := true)
  }

  /** Whether the quiz page is in one of the two quiz steps. */
  predicate InQuiz(d: Snapshot) {
    d.step == Baseline || d.step == FollowUp
  }

  /** The step a finished quiz leads to. */
  function NextPhase(step: Step): Step {
    if step == Baseline then FollowUp else Done
  }

  /**
   * Marking the answer to question `q_index`: a right answer counts, a wrong
   * one appends the first concept the question mentions to the incorrect
   * list, and so to the concepts too while the two keys are aliased.
   */
  function Marked(d: Snapshot, answer: Option<string>): Snapshot
    requires QuizKeysTogether(d) && d.questions.Some? && d.qIndex.value < |d.questions.value|
  {
    var item := d.questions.value[d.qIndex.value];
    if answer == Some(item.correct) then d.(correct := Some(d.correct.value + 1))
    else
      var incorrect := Some(d.incorrectConcepts.value + Blamed(d.concepts.value, item.question));
      d.(incorrectConcepts := incorrect, concepts := if d.aliased then incorrect else d.concepts)
  }

  /**
   * Moving past the question just marked; after the last one, the percentage
   * of right answers is recorded as the step's score, the next step begins and
   * both counters go back to zero.
   */
  function Advanced(d: Snapshot): Snapshot
    requires QuizKeysTogether(d) && d.questions.Some? && d.qIndex.value < |d.questions.value|
    requires d.correct.value <= d.qIndex.value + 1
  {
    var next := d.qIndex.value + 1;
    if next < |d.questions.value| then d.(qIndex := Some(next))
    else
      var score := Percent(d.correct.value, |d.questions.value|);
      if d.step == Baseline then d.(qIndex := Some(0), correct := Some(0), baselineScore := Some(score), step := FollowUp)
      else d.(qIndex := Some(0), correct := Some(0), finalScore := Some(score), step := Done)
  }

  /** One quiz answer, to question `q_index`; AnsweredSpec says what it does. */
  function Answered(d: Snapshot, answer: Option<string>): Snapshot
    requires QuizKeysTogether(d) && InQuiz(d) && d.questions.Some?
    requires d.correct.value <= d.qIndex.value < |d.questions.value|
  {
    Advanced(Marked(d, answer))
  }

  /**
   * One quiz answer, to question `q_index`. A right answer counts; a wrong one
   * blames the first concept the question mentions, if any, appending it to
   * the concepts as well when a retry has aliased the two lists. After the last
   * question the percentage of right answers is the baseline or the final
   * score, the counters go back to zero and the next step begins.
   */
  lemma AnsweredSpec(d: Snapshot, answer: Option<string>)
    requires QuizKeysTogether(d) && InQuiz(d) && d.questions.Some?
    requires d.correct.value <= d.qIndex.value < |d.questions.value|
    ensures var r := Answered(d, answer);
            var item := d.questions.value[d.qIndex.value];
            var right := answer == Some(item.correct);
            var correct := d.correct.value + (if right then 1 else 0);
            && r.questions == d.questions
            && r.concepts == (if !right && d.aliased then r.incorrectConcepts else d.concepts)
            && r.(concepts := d.concepts, incorrectConcepts := d.incorrectConcepts, qIndex := d.qIndex, correct := d.correct,
                  baselineScore := d.baselineScore, finalScore := d.finalScore, step := d.step) == d
            && r.incorrectConcepts == Some(if right then d.incorrectConcepts.value else d.incorrectConcepts.value + Blamed(d.concepts.value, item.question))
            && (d.qIndex.value + 1 < |d.questions.value| ==>
                  r.step == d.step && r.qIndex == Some(d.qIndex.value + 1) && r.correct == Some(correct))
            && (d.qIndex.value + 1 == |d.questions.value| ==>
                  && r.step == NextPhase(d.step) && r.qIndex == Some(0) && r.correct == Some(0)
                  && correct <= |d.questions.value|
                  && (if d.step == Baseline then r.baselineScore else r.finalScore) == Some(Percent(correct, |d.questions.value|)))
  {
  }

  /** An answer keeps the dictionary consistent and never moves the session back. */
  lemma AnsweredKeepsConsistent(d: Snapshot, answer: Option<string>)
    requires Consistent(d) && InQuiz(d) && d.questions.Some?
    requires d.qIndex.value < |d.questions.value|
    ensures Consistent(Answered(d, answer))
    ensures StepRank(d.step) <= StepRank(Answered(d, answer).step)
  {
    AnsweredSpec(d, answer);
  }

  /** How many of the answers are right, answer `i` going with question `i`. */
  function RightCount(questions: seq<QuizItem>, answers: seq<Option<string>>): (n: nat)
    requires |answers| == |questions|
    ensures n <= |questions|
    decreases |questions|
  {
    if questions == [] then 0
    else (if answers[0] == Some(questions[0].correct) then 1 else 0) + RightCount(questions[1..], answers[1..])
  }

  /** The score a finished quiz in `step` records. */
  function RecordedScore(step: Step, d: Snapshot): Option<real> {
    if step == Baseline then d.baselineScore else d.finalScore
  }

  /** The dictionary after answering the rest of the quiz, one answer per remaining question. */
  function AnswerRest(d: Snapshot, answers: seq<Option<string>>): Snapshot
    requires QuizKeysTogether(d) && InQuiz(d) && d.questions.Some? && d.correct.value <= d.qIndex.value
    requires 0 < |answers| && d.qIndex.value + |answers| == |d.questions.value|
    decreases |answers|
  {
    var e := Answered(d, answers[0]);
    if |answers| == 1 then e else AnswerRest(e, answers[1..])
  }

  /** Answering every remaining question finishes the quiz: the next step begins and both counters are back at zero. */
  lemma {:induction false} AnswerRestFinishes(d: Snapshot, answers: seq<Option<string>>)
    requires QuizKeysTogether(d) && InQuiz(d) && d.questions.Some? && d.correct.value <= d.qIndex.value
    requires 0 < |answers| && d.qIndex.value + |answers| == |d.questions.value|
    ensures var r := AnswerRest(d, answers);
            r.step == NextPhase(d.step) && r.qIndex == Some(0) && r.correct == Some(0)
    decreases |answers|
  {
    if |answers| == 1 {
      AnsweredLast(d, answers[0]);
    } else {
      AnsweredNext(d, answers[0]);
      AnswerRestFinishes(Answered(d, answers[0]), answers[1..]);
    }
  }

  /**
   * Answering every remaining question records, as the step's score, the
   * percentage of right answers, counting those given before.
   */
  lemma {:induction false} AnswerRestScores(d: Snapshot, answers: seq<Option<string>>)
    requires QuizKeysTogether(d) && InQuiz(d) && d.questions.Some? && d.correct.value <= d.qIndex.value
    requires 0 < |answers| && d.qIndex.value + |answers| == |d.questions.value|
    ensures var qs := d.questions.value;
            var right := d.correct.value + RightCount(qs[d.qIndex.value..], answers);
            && right <= |qs|
            && RecordedScore(d.step, AnswerRest(d, answers)) == Some(Percent(right, |qs|))
    decreases |answers|
  {
    RightCountFrom(d.questions.value, d.qIndex.value, answers);
    if |answers| == 1 {
      AnsweredLast(d, answers[0]);
    } else {
      AnsweredNext(d, answers[0]);
      AnswerRestScores(Answered(d, answers[0]), answers[1..]);
    }
  }

  /** Counting from question `i` is question `i`'s mark plus the count from the next one. */
  lemma RightCountFrom(qs: seq<QuizItem>, i: nat, answers: seq<Option<string>>)
    requires 0 < |answers| && i + |answers| == |qs|
    ensures RightCount(qs[i..], answers)
            == (if answers[0] == Some(qs[i].correct) then 1 else 0) + RightCount(qs[i + 1..], answers[1..])
  {
    assert qs[i..][1..] == qs[i + 1..];
  }

  /** An answer before the last question keeps the step and the questions, and moves the counters on. */
  lemma AnsweredNext(d: Snapshot, answer: Option<string>)
    requires QuizKeysTogether(d) && InQuiz(d) && d.questions.Some? && d.correct.value <= d.qIndex.value
    requires d.qIndex.value + 1 < |d.questions.value|
    ensures var r := Answered(d, answer);
            && QuizKeysTogether(r) && r.step == d.step && r.questions == d.questions
            && r.qIndex == Some(d.qIndex.value + 1)
            && r.correct == Some(d.correct.value + if answer == Some(d.questions.value[d.qIndex.value].correct) then 1 else 0)
  {
  }

  /** The answer to the last question records the score and resets the counters. */
  lemma AnsweredLast(d: Snapshot, answer: Option<string>)
    requires QuizKeysTogether(d) && InQuiz(d) && d.questions.Some? && d.correct.value <= d.qIndex.value
    requires d.qIndex.value + 1 == |d.questions.value|
    ensures var r := Answered(d, answer);
            var right := d.correct.value + if answer == Some(d.questions.value[d.qIndex.value].correct) then 1 else 0;
            && r.step == NextPhase(d.step) && r.qIndex == Some(0) && r.correct == Some(0)
            && right <= |d.questions.value|
            && RecordedScore(d.step, r) == Some(Percent(right, |d.questions.value|))
  {
  }

  /** A quiz answered from its first question to its last records the percentage of right answers. */
  lemma WholeQuizScores(d: Snapshot, answers: seq<Option<string>>)
    requires QuizKeysTogether(d) && InQuiz(d) && d.questions.Some? && d.qIndex == Some(0) && d.correct == Some(0)
    requires 0 < |answers| == |d.questions.value|
    ensures var r := AnswerRest(d, answers);
            && r.step == NextPhase(d.step)
            && RecordedScore(d.step, r) == Some(Percent(RightCount(d.questions.value, answers), |answers|))
  {
    AnswerRestFinishes(d, answers);
    AnswerRestScores(d, answers);
    assert d.questions.value[0..] == d.questions.value;
  }

  /** Whether the quiz page generates a fresh quiz: there is none yet, or its counter is back at the start. */
  predicate Regenerates(d: Snapshot) {
    d.questions.None? || d.qIndex == Some(0)
  }

  /** A fresh quiz; RegeneratedSpec says what it is. */
  function Regenerated(d: Snapshot, extract: (seq<(string, string)>, Option<string>) -> seq<string>,
                       generate: (seq<string>, Option<string>, real, set<string>) -> (seq<QuizItem>, set<string>)): Snapshot
    requires Consistent(d) && InQuiz(d)
  {
    var concepts := extract(d.content.value, d.topic);
    var generated := generate(concepts, d.topic, if d.baselineScore.Some? then d.baselineScore.value else 0.0, d.usedQuestions);
    d.(concepts := Some(concepts), incorrectConcepts := Some([]), questions := Some(generated.0),
       usedQuestions := generated.1, qIndex := Some(0), correct := Some(0), aliased := false)
  }

  /**
   * A fresh quiz: the extractor's concepts, no concept blamed yet (in a new
   * list, so no longer aliased to the concepts), the
   * generator's questions and used set (it is given the baseline score, 0
   * before there is one), and both counters at zero.
   */
  lemma RegeneratedSpec(d: Snapshot, extract: (seq<(string, string)>, Option<string>) -> seq<string>,
                        generate: (seq<string>, Option<string>, real, set<string>) -> (seq<QuizItem>, set<string>))
    requires Consistent(d) && InQuiz(d)
    ensures var r := Regenerated(d, extract, generate);
            var baseline := if d.baselineScore.Some? then d.baselineScore.value else 0.0;
            && Consistent(r)
            && r.step == d.step
            && r.concepts == Some(extract(d.content.value, d.topic))
            && r.incorrectConcepts == Some([]) && r.qIndex == Some(0) && r.correct == Some(0) && !r.aliased
            && (r.questions.value, r.usedQuestions) == generate(r.concepts.value, d.topic, baseline, d.usedQuestions)
            && r.(concepts := d.concepts, incorrectConcepts := d.incorrectConcepts, questions := d.questions,
                  usedQuestions := d.usedQuestions, qIndex := d.qIndex, correct := d.correct, aliased := d.aliased) == d
  {
  }

  /**
   * The web page `learn` shows after its POST branches, as a function of the
   * dictionary (`None` before the first start). `resources` is what the web
   * search returns for the done page.
   */
  function LearnPage(u: Option<Snapshot>, resources: string): (resp: Response)
    ensures u.None? ==> resp == Redirect(StartRoute)
    ensures u.Some? && Consistent(u.value) ==> resp != ServerError
    ensures u.Some? && Consistent(u.value) && u.value.step == Vark ==> resp == VarkPage(u.value.varkQ) && u.value.varkQ < |VarkQuestions|
    ensures resp.DonePage? ==>
              u.Some? && u.value.step == Done && u.value.baselineScore == Some(resp.baseline) && u.value.finalScore == Some(resp.final)
    ensures u.Some? && u.value.step == Done && u.value.baselineScore.Some? && u.value.finalScore.Some? ==>
              resp == DonePage(u.value.name, u.value.topic, u.value.baselineScore.value, u.value.finalScore.value, resources)
    ensures u.Some? && u.value.step == Done && (u.value.baselineScore.None? || u.value.finalScore.None?) ==> resp == ServerError
    ensures u.Some? && u.value.step == Upload ==> resp == UploadPage
    ensures u.Some? && u.value.step == FollowUp ==> resp == Redirect(QuizRoute)
    ensures resp == UnexpectedStepPage <==> u.Some? && u.value.step == Baseline
  {
    if u.None? then Redirect(StartRoute)
    else
      var d := u.value;
      match d.step
      case Vark =>
        VarkQuestionCountIsLength();
        if d.varkQ < |VarkQuestions| then VarkPage(d.varkQ) else Redirect(LearnRoute)
      case Upload => UploadPage
      case FollowUp => Redirect(QuizRoute)
      case Done =>
        if d.baselineScore.None? || d.finalScore.None? then ServerError
        else DonePage(d.name, d.topic, d.baselineScore.value, d.finalScore.value, resources)
      case Baseline => UnexpectedStepPage
  }

  /** The concept a wrong answer blames is the first one the question mentions. */
  lemma BlamedFirst(concepts: seq<string>, question: string, i: nat)
    requires i < |concepts| && Mentions(question, concepts[i])
    requires forall j :: 0 <= j < i ==> !Mentions(question, concepts[j])
    ensures Blamed(concepts, question) == [concepts[i]]
  {
    FirstMentionedSpec(concepts, question);
    var r := FirstMentioned(concepts, question);
    assert r.Some?;
    assert r.value == i;
  }

  /** The `for ... break` loop of a wrong answer: append the first concept the question mentions, if any. */
  method BlameFirstMentioned(incorrect: seq<string>, concepts: seq<string>, question: string) returns (r: seq<string>)
    ensures r == incorrect + Blamed(concepts, question)
  {
    r := incorrect;
    var i := 0;
    while i < |concepts|
      invariant 0 <= i <= |concepts|
      invariant r == incorrect
      invariant forall j :: 0 <= j < i ==> !Mentions(question, concepts[j])
    {
      if Mentions(question, concepts[i]) {
        BlamedFirst(concepts, question, i);
        r := r + [concepts[i]];
        break;
      }
      i := i + 1;
    }
    FirstMentionedSpec(concepts, question);
    assert r == incorrect + Blamed(concepts, question);
  }

  /**
   * A retry right after the baseline narrows the concepts to the ones answered
   * wrong, but the quiz page then finds the counter at zero and generates a
   * fresh quiz from the extractor's concepts: the narrowed list is lost.
   */
  lemma RetryOverwritten(d: Snapshot, extract: (seq<(string, string)>, Option<string>) -> seq<string>,
                         generate: (seq<string>, Option<string>, real, set<string>) -> (seq<QuizItem>, set<string>))
    requires Consistent(d) && d.step == FollowUp && d.qIndex == Some(0)
    ensures Regenerates(Retried(d))
    ensures Regenerated(Retried(d), extract, generate).concepts == Some(extract(d.content.value, d.topic))
    ensures Regenerated(Retried(d), extract, generate).incorrectConcepts == Some([])
  {
  }

  /**
   * A retry during a follow-up quiz that is under way (the counter is not at
   * zero, so the quiz page keeps the quiz) leaves the two keys sharing one
   * list: a wrong answer then grows the concepts exactly as it grows the
   * incorrect list.
   */
  lemma RetryAliases(d: Snapshot, answer: Option<string>)
    requires Consistent(d) && d.step == FollowUp && d.questions.Some? && d.qIndex.value < |d.questions.value|
    ensures !Regenerates(d) ==> !Regenerates(Retried(d))
    ensures var item := d.questions.value[d.qIndex.value];
            var r := Answered(Retried(d), answer);
            answer != Some(item.correct) ==>
              && r.incorrectConcepts == Some(d.incorrectConcepts.value + Blamed(d.incorrectConcepts.value, item.question))
              && r.concepts == r.incorrectConcepts
  {
    AnsweredSpec(Retried(d), answer);
  }

  // ---------------------------------------------------------------------------
  // The dictionary, updated in place
  // ---------------------------------------------------------------------------

  /** The global `user_data` dictionary: one field per key, a key it may lack holding an `Option`. */
  class UserData {
    var name: Option<string>
    var topic: Option<string>
    var step: Step
    var scores: Scores
    var usedQuestions: set<string>
    var varkQ: nat
    var style: Option<string>
    var content: Option<seq<(string, string)>>
    var concepts: Option<seq<string>>
    var incorrectConcepts: Option<seq<string>>
    var questions: Option<seq<QuizItem>>
    var qIndex: Option<nat>
    var correct: Option<nat>
    var baselineScore: Option<real>
    var finalScore: Option<real>
    var aliased: bool

    /** The dictionary's contents. */
    function State(): Snapshot
      reads this
    {
      Snapshot(name, topic, step, scores, usedQuestions, varkQ, style, content, concepts,
               incorrectConcepts, questions, qIndex, correct, baselineScore, finalScore, aliased)
    }

    predicate Valid()
      reads this
    {
      Consistent(State())
    }

    /** The dictionary `start_learning` builds from the form. */
    constructor (name: Option<string>, topic: Option<string>)
      ensures State() == Started(name, topic)
      ensures Valid()
    {
      this.name := name;
      this.topic := topic;
      step := Vark;
      scores := ZeroScores;
      usedQuestions := {};
      varkQ := 0;
      style, content, concepts, incorrectConcepts, questions := None, None, None, None, None;
      qIndex, correct, baselineScore, finalScore := None, None, None, None;
      aliased := false;
    }

    /** The vark branch of POST `/learn`: tally the choice, count the question, and after the last one pick the style. */
    method RecordVarkAnswer(choice: Option<string>)
      requires Valid() && step == Vark
      modifies this
      ensures State() == AnswerVark(old(State()), choice)
      ensures Valid()
    {
      AnswerVarkSpec(State(), choice);
      var tallied := if choice.Some? then Tally(scores, choice.value) else scores;
      var answered := varkQ + 1;
      if answered >= VarkQuestionCount() {
        StoreQuestionnaire(tallied, answered, Some(Dominant(tallied)), Upload);
      } else {
        StoreQuestionnaire(tallied, answered, style, step);
      }
    }

    /** The stores of the questionnaire: the counters, the questions answered, the style and the step. */
    method StoreQuestionnaire(tallied: Scores, answered: nat, chosen: Option<string>, next: Step)
      modifies this
      ensures State() == old(State()).(scores := tallied, varkQ := answered, style := chosen, step := next)
    {
      scores, varkQ, style, step := tallied, answered, chosen, next;
    }

    /** The upload branch of POST `/learn`: load the documents, reprocessing them if a file came with the form. */
    method StoreUpload(filename: Option<string>, load: bool -> seq<(string, string)>)
      requires Valid() && step == Upload
      modifies this
      ensures State() == Uploaded(old(State()), filename, load)
      ensures Valid()
    {
      var force := false;
      if filename.Some? && filename.value != [] {
        force := true;
      }
      content := Some(load(force));
      step := Baseline;
    }

    /** The retry branch of POST `/learn`: the concepts become the ones answered wrong. */
    method Retry()
      requires Valid() && step == FollowUp
      modifies this
      ensures State() == Retried(old(State()))
      ensures Valid()
    {
      concepts := incorrectConcepts;
      aliased := true;
    }

    /**
     * POST `/quiz` once the question exists: count a right answer, or walk the
     * concepts and blame the first one the question mentions; then move the
     * counter, and after the last question record the score, move to the next
     * step and reset both counters.
     */
    method RecordAnswer(answer: Option<string>)
      requires Valid() && InQuiz(State()) && questions.Some?
      requires qIndex.value < |questions.value|
      modifies this
      ensures State() == Answered(old(State()), answer)
      ensures Valid()
      ensures questions == old(questions)
      ensures qIndex == Some(0) <==> old(qIndex.value) + 1 == |questions.value|
    {
      AnsweredSpec(State(), answer);
      AnsweredKeepsConsistent(State(), answer);
      MarkAnswer(answer);
      Advance();
    }

    /**
     * The marking half of POST `/quiz`: count a right answer, or walk the
     * concepts and append the first one the question mentions to the
     * incorrect list, which is the concept list too while they are aliased.
     */
    method MarkAnswer(answer: Option<string>)
      requires QuizKeysTogether(State()) && questions.Some? && qIndex.value < |questions.value|
      modifies this
      ensures State() == Marked(old(State()), answer)
    {
      var item := questions.value[qIndex.value];
      if answer == Some(item.correct) {
        correct := Some(correct.value + 1);
      } else {
        var blamed := BlameFirstMentioned(incorrectConcepts.value, concepts.value, item.question);
        incorrectConcepts := Some(blamed);
        if aliased {
          concepts := Some(blamed);
        }
      }
    }

    /** The counting half of POST `/quiz`: move to the next question, and after the last one record the score and move on. */
    method Advance()
      requires QuizKeysTogether(State()) && questions.Some? && qIndex.value < |questions.value|
      requires correct.value <= qIndex.value + 1
      modifies this
      ensures State() == Advanced(old(State()))
    {
      qIndex := Some(qIndex.value + 1);
      if qIndex.value >= |questions.value| {
        var score := Percent(correct.value, |questions.value|);
        if step == Baseline {
          baselineScore := Some(score);
          step := FollowUp;
        } else {
          finalScore := Some(score);
          step := Done;
        }
        qIndex := Some(0);
        correct := Some(0);
      }
    }

    /** GET `/quiz` before it shows a question: a fresh quiz when there is none or its counter is at zero. */
    method PrepareQuiz(extract: (seq<(string, string)>, Option<string>) -> seq<string>,
                       generate: (seq<string>, Option<string>, real, set<string>) -> (seq<QuizItem>, set<string>))
      requires Valid() && InQuiz(State())
      modifies this
      ensures State() == if Regenerates(old(State())) then Regenerated(old(State()), extract, generate) else old(State())
      ensures Valid()
    {
      ghost var before := State();
      if questions.None? || qIndex == Some(0) {
        var extracted := extract(content.value, topic);
        var baseline := if baselineScore.Some? then baselineScore.value else 0.0;
        var generated := generate(extracted, topic, baseline, usedQuestions);
        RegeneratedSpec(before, extract, generate);
        Install(extracted, generated.0, generated.1);
      }
    }

    /** The stores of a fresh quiz: its concepts, none blamed yet in a new list, its questions and used set, both counters at zero. */
    method Install(extracted: seq<string>, items: seq<QuizItem>, used: set<string>)
      modifies this
      ensures State() == old(State()).(concepts := Some(extracted), incorrectConcepts := Some([]), questions := Some(items),
                                      usedQuestions := used, qIndex := Some(0), correct := Some(0), aliased := false)
    {
      concepts, incorrectConcepts, questions, usedQuestions, qIndex, correct, aliased :=
        Some(extracted), Some([]), Some(items), used, Some(0), Some(0), false;
      assert State() == Snapshot(name, topic, step, scores, used, varkQ, style, content, Some(extracted),
                                 Some([]), Some(items), Some(0), Some(0), baselineScore, finalScore, false);
    }
  }

  // ---------------------------------------------------------------------------
  // The handlers
  // ---------------------------------------------------------------------------

  /** The application, holding the global `user_data`; `null` while it does not exist. */
  class App {
    var userData: UserData?

    predicate Valid()
      reads this, userData
    {
      userData != null ==> userData.Valid()
    }

    /** The global's contents, `None` while it does not exist. */
    function Current(): Option<Snapshot>
      reads this, userData
    {
      if userData == null then None else Some(userData.State())
    }

    constructor ()
      ensures Valid() && userData == null
    {
      userData := null;
    }

    /** POST `/start`: a new dictionary from the form, then the questionnaire. */
    method StartPost(name: Option<string>, topic: Option<string>) returns (resp: Response)
      modifies this
      ensures Valid() && userData != null && fresh(userData)
      ensures Current() == Some(Started(name, topic))
      ensures resp == Redirect(LearnRoute)
    {
      userData := new UserData(name, topic);
      resp := Redirect(LearnRoute);
    }

    /** GET `/learn`: the page for the current step; `resources` is what the web search returns for the done page. */
    method LearnGet(resources: string) returns (resp: Response)
      requires Valid()
      ensures resp == LearnPage(Current(), resources)
    {
      if userData == null {
        return Redirect(StartRoute);
      }
      match userData.step
      case Vark =>
        VarkQuestionCountIsLength();
        if userData.varkQ < |VarkQuestions| {
          resp := VarkPage(userData.varkQ);
        } else {
          resp := Redirect(LearnRoute);
        }
      case Upload => resp := UploadPage;
      case FollowUp => resp := Redirect(QuizRoute);
      case Done =>
        if userData.baselineScore.None? || userData.finalScore.None? {
          resp := ServerError;
        } else {
          resp := DonePage(userData.name, userData.topic, userData.baselineScore.value, userData.finalScore.value, resources);
        }
      case Baseline => resp := UnexpectedStepPage;
    }

    /**
     * POST `/learn`: `choice` is the questionnaire answer, `filename` the
     * uploaded file's name, `load` the document loader (given whether to
     * reprocess), `retry` whether the follow-up form asks to retry, and
     * `resources` the web search result the done page shows.
     */
    method LearnPost(choice: Option<string>, filename: Option<string>, load: bool -> seq<(string, string)>,
                     retry: bool, resources: string) returns (resp: Response)
      requires Valid()
      modifies userData
      ensures Valid() && userData == old(userData)
      ensures old(Current()).None? ==> Current().None? && resp == Redirect(StartRoute)
      ensures old(Current()).Some? ==> Current().Some? && StepRank(old(Current()).value.step) <= StepRank(Current().value.step)
      ensures old(Current()).Some? && old(Current()).value.step == Vark ==>
                Current() == Some(AnswerVark(old(Current()).value, choice)) && resp == Redirect(LearnRoute)
      ensures old(Current()).Some? && old(Current()).value.step == Upload ==>
                Current() == Some(Uploaded(old(Current()).value, filename, load)) && resp == Redirect(QuizRoute)
      ensures old(Current()).Some? && old(Current()).value.step == FollowUp && retry ==>
                Current() == Some(Retried(old(Current()).value)) && resp == Redirect(QuizRoute)
      ensures old(Current()).Some? && (old(Current()).value.step in {Baseline, Done} || (old(Current()).value.step == FollowUp && !retry)) ==>
                Current() == old(Current()) && resp == LearnPage(Current(), resources)
    {
      if userData == null {
        return Redirect(StartRoute);
      }
      if userData.step == Vark {
        userData.RecordVarkAnswer(choice);
        return Redirect(LearnRoute);
      } else if userData.step == Upload {
        userData.StoreUpload(filename, load);
        return Redirect(QuizRoute);
      } else if userData.step == FollowUp && retry {
        userData.Retry();
        return Redirect(QuizRoute);
      }
      resp := LearnGet(resources);
    }

    /**
     * POST `/quiz` with the chosen `answer`. Outside a quiz step it sends the
     * user back to the start; a missing `q_index` or `questions` key or a
     * counter past the last question is an exception; otherwise the answer is
     * recorded and the next page is the next question or, after the last
     * one, `learn`.
     */
    method QuizPost(answer: Option<string>) returns (resp: Response)
      requires Valid()
      modifies userData
      ensures Valid() && userData == old(userData)
      ensures old(Current()).None? || !InQuiz(old(Current()).value) ==>
                Current() == old(Current()) && resp == Redirect(StartRoute)
      ensures old(Current()).Some? && InQuiz(old(Current()).value) && old(Current()).value.questions.None? ==>
                Current() == old(Current()) && resp == ServerError
      ensures old(Current()).Some? && InQuiz(old(Current()).value) && old(Current()).value.questions.Some? ==>
                var d := old(Current()).value;
                if d.qIndex.value >= |d.questions.value| then
                  Current() == old(Current()) && resp == ServerError
                else
                  && Current() == Some(Answered(d, answer))
                  && resp == if d.qIndex.value + 1 < |d.questions.value| then Redirect(QuizRoute) else Redirect(LearnRoute)
    {
      if userData == null || !(userData.step == Baseline || userData.step == FollowUp) {
        return Redirect(StartRoute);
      }
      if userData.qIndex.None? || userData.questions.None? || userData.qIndex.value >= |userData.questions.value| {
        return ServerError;
      }
      userData.RecordAnswer(answer);
      if userData.qIndex == Some(0) {
        return Redirect(LearnRoute);
      }
      return Redirect(QuizRoute);
    }

    /**
     * GET `/quiz`: outside a quiz step back to the start; otherwise prepare the
     * quiz with the concept extractor and the question generator, then show
     * question `q_index`, or fail with an exception when there is no such
     * question (the fresh quiz stays stored).
     */
    method QuizGet(extract: (seq<(string, string)>, Option<string>) -> seq<string>,
                   generate: (seq<string>, Option<string>, real, set<string>) -> (seq<QuizItem>, set<string>))
      returns (resp: Response)
      requires Valid()
      modifies userData
      ensures Valid() && userData == old(userData)
      ensures old(Current()).None? || !InQuiz(old(Current()).value) ==>
                Current() == old(Current()) && resp == Redirect(StartRoute)
      ensures old(Current()).Some? && InQuiz(old(Current()).value) ==>
                var d0 := old(Current()).value;
                var d := if Regenerates(d0) then Regenerated(d0, extract, generate) else d0;
                && Current() == Some(d)
                && d.questions.Some?
                && resp == if d.qIndex.value < |d.questions.value|
                           then var q := d.questions.value[d.qIndex.value]; QuizPage(q.question, q.options, Phase(d.step))
                           else ServerError
    {
      if userData == null || !(userData.step == Baseline || userData.step == FollowUp) {
        return Redirect(StartRoute);
      }
      userData.PrepareQuiz(extract, generate);
      if userData.qIndex.value >= |userData.questions.value| {
        return ServerError;
      }
      var q := userData.questions.value[userData.qIndex.value];
      return QuizPage(q.question, q.options, Phase(userData.step));
    }
  }
}
