/**
 * The VARK questionnaire (Visual, Auditory, Read/write, Kinesthetic): one
 * answer per question is tallied into four counters and the dominant style is
 * the counter that Python's `max(scores, key=scores.get)` picks.
 */
module LearningStyle {
  import opened Text
  import opened Seqs

  datatype VarkQuestion = VarkQuestion(question: string, options: seq<(string, string)>)

  /** The questionnaire, options in their display order. */
  const VarkQuestions: seq<VarkQuestion> := [
    VarkQuestion("You need to learn a new skill. How do you prefer to start?",
      [("V", "Watch a video or see diagrams"), ("A", "Listen to an explanation or podcast"),
       ("R", "Read instructions or a manual"), ("K", "Try it hands-on with guidance")]),
    VarkQuestion("When remembering something, what helps most?",
      [("V", "Pictures or visuals"), ("A", "Hearing it spoken"),
       ("R", "Writing it down or reading it"), ("K", "Doing it physically")])
  ]

  /** `len(VARK_QUESTIONS)`. */
  function VarkQuestionCount(): nat { 2 }

  lemma VarkQuestionCountIsLength()
    ensures |VarkQuestions| == VarkQuestionCount()
  {
  }

  /** The keys of the score dictionary, in its insertion order. */
  const Styles: seq<string> := ["V", "A", "R", "K"]

  /** The score dictionary `{"V": .., "A": .., "R": .., "K": ..}`. */
  type Scores = map<string, nat>

  predicate IsScores(scores: Scores) {
    scores.Keys == {"V", "A", "R", "K"}
  }

  const ZeroScores: Scores := map["V" := 0, "A" := 0, "R" := 0, "K" := 0]

  /** The initial counters are the four styles at zero. */
  lemma ZeroScoresAreScores()
    ensures IsScores(ZeroScores) && Total(ZeroScores) == 0
  {
  }

  function Total(scores: Scores): nat
    requires IsScores(scores)
  {
    scores["V"] + scores["A"] + scores["R"] + scores["K"]
  }

  /** `if choice in scores: scores[choice] += 1`. */
  function Tally(scores: Scores, choice: string): (r: Scores)
    requires IsScores(scores)
    ensures IsScores(r)
    ensures forall k :: k in Styles ==> r[k] == scores[k] + (if k == choice then 1 else 0)
    ensures Total(r) == Total(scores) + (if choice in Styles then 1 else 0)
  {
    if choice in scores then scores[choice := scores[choice] + 1] else scores
  }

  /** The counters after tallying every choice, first to last. */
  function TallyAll(choices: seq<string>): (r: Scores)
    ensures IsScores(r)
    decreases |choices|
  {
    if choices == [] then ZeroScores
    else Tally(TallyAll(choices[..|choices| - 1]), choices[|choices| - 1])
  }

  /** Each counter holds how many choices named it, so the counters sum to at most the number of choices. */
  lemma {:induction false} TallyAllCounts(choices: seq<string>)
    ensures forall k :: k in Styles ==> TallyAll(choices)[k] == Count(choices, k)
    ensures Total(TallyAll(choices)) <= |choices|
    decreases |choices|
  {
    if choices != [] {
      var init := choices[..|choices| - 1];
      var last := choices[|choices| - 1];
      TallyAllCounts(init);
      assert init + [last] == choices;
      forall k | k in Styles ensures TallyAll(choices)[k] == Count(choices, k) {
        CountAppend(init, last, k);
      }
    }
  }

  /**
   * `max(scores, key=scores.get)`: walks the keys in insertion order and
   * replaces its candidate only on a strictly larger count, so it returns a
   * maximal style and, among equals, the earliest of V, A, R, K.
   */
  function Dominant(scores: Scores): (style: string)
    requires IsScores(scores)
    ensures style in Styles
    ensures forall k :: k in Styles ==> scores[k] <= scores[style]
    ensures forall i :: 0 <= i < |Styles| && Styles[i] == style ==>
              forall j :: 0 <= j < i ==> scores[Styles[j]] < scores[style]
  {
    var best0 := "V";
    var best1 := if scores["A"] > scores[best0] then "A" else best0;
    var best2 := if scores["R"] > scores[best1] then "R" else best1;
    if scores["K"] > scores[best2] then "K" else best2
  }

  /** Every input upper-cased, as `input(...).upper()` reads it. */
  function UpperAll(inputs: seq<string>): (r: seq<string>)
    ensures |r| == |inputs|
    ensures forall i :: 0 <= i < |inputs| ==> r[i] == Upper(inputs[i])
  {
    seq(|inputs|, i requires 0 <= i < |inputs| => Upper(inputs[i]))
  }

  /**
   * `assess_learning_style`: one console answer per question, upper-cased and
   * tallied; the result is the dominant style. The console is the `inputs`
   * sequence; the printing is not modelled.
   */
  method AssessLearningStyle(inputs: seq<string>) returns (style: string)
    requires |inputs| == |VarkQuestions|
    ensures style == Dominant(TallyAll(UpperAll(inputs)))
    ensures style in Styles
    ensures forall k :: k in Styles ==> Count(UpperAll(inputs), k) <= Count(UpperAll(inputs), style)
    ensures forall i :: 0 <= i < |Styles| && Styles[i] == style ==>
              forall j :: 0 <= j < i ==> Count(UpperAll(inputs), Styles[j]) < Count(UpperAll(inputs), style)
  {
    VarkQuestionCountIsLength();
    var n := VarkQuestionCount();
    ghost var choices := UpperAll(inputs);
    var scores := ZeroScores;
    var i := 0;
    while i < n
      invariant 0 <= i <= n
      invariant scores == TallyAll(choices[..i])
    {
      var choice := Upper(inputs[i]);
      TallyAllStep(choices, i);
      scores := Tally(scores, choice);
      i := i + 1;
    }
    assert choices[..i] == choices;
    style := Dominant(scores);
    DominantCounts(choices);
  }

  /** Tallying one more choice. */
  lemma TallyAllStep(choices: seq<string>, i: nat)
    requires i < |choices|
    ensures TallyAll(choices[..i + 1]) == Tally(TallyAll(choices[..i]), choices[i])
  {
    assert choices[..i + 1][..i] == choices[..i];
  }

  /** The dominant style of a tally has the most votes, and strictly more than any style listed before it. */
  lemma DominantCounts(choices: seq<string>)
    ensures var style := Dominant(TallyAll(choices));
            && (forall k :: k in Styles ==> Count(choices, k) <= Count(choices, style))
            && (forall i :: 0 <= i < |Styles| && Styles[i] == style ==>
                  forall j :: 0 <= j < i ==> Count(choices, Styles[j]) < Count(choices, style))
  {
    TallyAllCounts(choices);
  }
}
