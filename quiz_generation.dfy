/**
 * Multiple-choice questions from a language model: `generate_questions_from_concepts`
 * and `assess_baseline_knowledge`.
 *
 * The model is an oracle: `responses[k]` is the text it returns to the k-th
 * prompt, in call order. A run that needs more calls than there are responses
 * yields `None`; this is also how a run that would never stop (the fallback
 * loop keeps asking until it has enough questions) shows up.
 */
module QuizGeneration {
  import opened Wrappers
  import opened Text
  import opened Seqs
  import opened KeyConcepts

  /** `{"question": .., "options": {"A": .., ..}, "correct": ..}`. */
  datatype QuizItem = QuizItem(question: string, options: map<string, string>, correct: string)

  const Letters: set<string> := {"A", "B", "C", "D"}

  /** `c in "ABCD"` for a single character. */
  predicate IsLetterChar(c: char) {
    c == 'A' || c == 'B' || c == 'C' || c == 'D'
  }

  // ---------------------------------------------------------------------------
  // Reading the options block
  // ---------------------------------------------------------------------------

  /**
   * `line.strip() and line[0] in "ABCD" and ")" in line`. A line starting with
   * a letter is not blank, so the first test only guards `line[0]`;
   * OptionLineTest shows the two forms agree.
   */
  predicate IsOptionLine(line: string) {
    |line| > 0 && IsLetterChar(line[0]) && ')' in line
  }

  /** The condition exactly as the source spells it, with `str.strip` and the substring test. */
  lemma OptionLineTest(line: string)
    ensures (Strip(line) != [] && IsLetterChar(line[0]) && Contains(line, ")")) <==> IsOptionLine(line)
  {
    ContainsChar(line, ')');
    if |line| > 0 && IsLetterChar(line[0]) {
      StripNonBlank(line);
    }
  }

  /** `line.split(")", 1)[1].strip()`: the text after the first `)`, stripped. */
  function OptionText(line: string): string
    requires ')' in line
  {
    Strip(line[IndexOf(line, ')') + 1..])
  }

  /** `letter = line[0]`, as a dictionary key. */
  function LetterOf(line: string): string
    requires IsOptionLine(line)
  {
    [line[0]]
  }

  /** The `options` dictionary after the loop over `lines`; a later line for a letter overwrites an earlier one. */
  function OptionsOf(lines: seq<string>): (options: map<string, string>)
    ensures options.Keys <= Letters
    decreases |lines|
  {
    if lines == [] then map[]
    else
      var options := OptionsOf(lines[..|lines| - 1]);
      var line := lines[|lines| - 1];
      if IsOptionLine(line) then options[LetterOf(line) := OptionText(line)] else options
  }

  /** Line `i` is an option line and no later option line has its letter. */
  predicate LastForLetter(lines: seq<string>, i: int) {
    0 <= i < |lines| && IsOptionLine(lines[i])
    && forall j :: i < j < |lines| && IsOptionLine(lines[j]) ==> LetterOf(lines[j]) != LetterOf(lines[i])
  }

  /** A letter is a key exactly when some option line starts with it. */
  lemma {:induction false} OptionsOfKeys(lines: seq<string>)
    ensures forall k :: k in OptionsOf(lines) <==>
              exists i :: 0 <= i < |lines| && IsOptionLine(lines[i]) && LetterOf(lines[i]) == k
    decreases |lines|
  {
    if lines != [] {
      var init := lines[..|lines| - 1];
      OptionsOfKeys(init);
      forall k | k in OptionsOf(lines)
        ensures exists i :: 0 <= i < |lines| && IsOptionLine(lines[i]) && LetterOf(lines[i]) == k
      {
        if k in OptionsOf(init) {
          var i :| 0 <= i < |init| && IsOptionLine(init[i]) && LetterOf(init[i]) == k;
          assert lines[i] == init[i];
        }
      }
      forall k, i | 0 <= i < |lines| && IsOptionLine(lines[i]) && LetterOf(lines[i]) == k
        ensures k in OptionsOf(lines)
      {
        if i < |init| {
          assert init[i] == lines[i];
        }
      }
    }
  }

  /** Each letter maps to the text of the last option line that starts with it. */
  lemma OptionsOfValues(lines: seq<string>)
    ensures forall i :: LastForLetter(lines, i) ==>
              LetterOf(lines[i]) in OptionsOf(lines) && OptionsOf(lines)[LetterOf(lines[i])] == OptionText(lines[i])
  {
    forall i | LastForLetter(lines, i)
      ensures LetterOf(lines[i]) in OptionsOf(lines) && OptionsOf(lines)[LetterOf(lines[i])] == OptionText(lines[i])
    {
      OptionsOfValueAt(lines, i);
    }
  }

  lemma {:induction false} OptionsOfValueAt(lines: seq<string>, i: nat)
    requires LastForLetter(lines, i)
    ensures LetterOf(lines[i]) in OptionsOf(lines) && OptionsOf(lines)[LetterOf(lines[i])] == OptionText(lines[i])
    decreases |lines|
  {
    var last := |lines| - 1;
    var init := lines[..last];
    assert lines[..last + 1] == lines;
    OptionsOfStep(lines, last);
    if i < last {
      assert init[i] == lines[i];
      assert LastForLetter(init, i) by {
        forall j | i < j < |init| && IsOptionLine(init[j]) ensures LetterOf(init[j]) != LetterOf(init[i]) {
          assert init[j] == lines[j];
        }
      }
      OptionsOfValueAt(init, i);
      if IsOptionLine(lines[last]) {
        assert LetterOf(lines[last]) != LetterOf(lines[i]);
      }
    }
  }

  /** One more line of the block. */
  lemma OptionsOfStep(lines: seq<string>, i: nat)
    requires i < |lines|
    ensures OptionsOf(lines[..i + 1]) ==
      if IsOptionLine(lines[i]) then OptionsOf(lines[..i])[LetterOf(lines[i]) := OptionText(lines[i])] else OptionsOf(lines[..i])
  {
    assert lines[..i + 1][..i] == lines[..i];
  }

  /** The options loop: every line of the block, in order. */
  method ReadOptions(optsPart: string) returns (options: map<string, string>)
    ensures options == OptionsOf(SplitOn(optsPart, '\n'))
    ensures options.Keys <= Letters
  {
    var lines := SplitOn(optsPart, '\n');
    options := map[];
    var i := 0;
    while i < |lines|
      invariant 0 <= i <= |lines|
      invariant options == OptionsOf(lines[..i])
    {
      var line := lines[i];
      OptionsOfStep(lines, i);
      if IsOptionLine(line) {
        options := options[LetterOf(line) := OptionText(line)];
      }
      i := i + 1;
    }
    assert lines[..i] == lines;
  }

  // ---------------------------------------------------------------------------
  // Parsing one response
  // ---------------------------------------------------------------------------

  /**
   * The `try` block's three splits and the options loop. `None` is the
   * `IndexError` raised when one of the markers is missing.
   */
  function Parse(response: string): (r: Option<QuizItem>)
    ensures r.None? <==> !Contains(response, "Question:") || !Contains(response, "Options:") || !Contains(response, "Correct:")
    ensures r.Some? ==> r.value.options.Keys <= Letters
  {
    match (SecondField(response, "Question:"), SecondField(response, "Options:"), SecondField(response, "Correct:"))
    case (Some(q), Some(o), Some(c)) =>
      Some(QuizItem(Strip(Before(q, "Options:")), OptionsOf(SplitOn(Strip(Before(o, "Correct:")), '\n')), Strip(c)))
    case _ => None
  }

  /** The parsing steps of one loop iteration. */
  method ParseResponse(response: string) returns (r: Option<QuizItem>)
    ensures r == Parse(response)
  {
    var q := SecondField(response, "Question:");
    var o := SecondField(response, "Options:");
    var c := SecondField(response, "Correct:");
    if q.None? || o.None? || c.None? {
      return None;
    }
    var question := Strip(Before(q.value, "Options:"));
    var optsPart := Strip(Before(o.value, "Correct:"));
    var correct := Strip(c.value);
    var options := ReadOptions(optsPart);
    r := Some(QuizItem(question, options, correct));
  }

  // ---------------------------------------------------------------------------
  // Accepting a parsed question
  // ---------------------------------------------------------------------------

  /**
   * The acceptance test as the source writes it: `correct_part in "ABCD"` is a
   * substring test, so "", "AB", "BCD" and "ABCD" pass as well as a letter.
   */
  predicate AcceptsAsWritten(item: QuizItem, used: set<string>) {
    item.question != [] && |item.options| == 4 && Contains("ABCD", item.correct) && item.question !in used
  }

  /** The acceptance test as intended: the correct answer is one of the four letters. */
  predicate Accepts(item: QuizItem, used: set<string>) {
    item.question != [] && |item.options| == 4 && item.correct in Letters && item.question !in used
  }

  /** Which acceptance test a generator applies: the source's substring test, or the intended letter test. */
  datatype Test = AsWritten | Intended

  predicate Admits(test: Test, item: QuizItem, used: set<string>) {
    match test
    case AsWritten => AcceptsAsWritten(item, used)
    case Intended => Accepts(item, used)
  }

  /** A question the quiz can show and mark: text, the four options, and an answer that is one of them. */
  predicate WellFormed(item: QuizItem) {
    item.question != [] && item.options.Keys == Letters && item.correct in item.options
  }

  /**
   * What each question a generator applying `test` returns satisfies: text and
   * the four options A to D, with a correct part that is a substring of "ABCD"
   * under the source's test, and one of the options under the intended one.
   */
  predicate Shaped(test: Test, item: QuizItem) {
    match test
    case AsWritten => item.question != [] && item.options.Keys == Letters && Contains("ABCD", item.correct)
    case Intended => WellFormed(item)
  }

  /** A substring of "ABCD" is one of the four letters exactly when it is one character long. */
  lemma LetterSubstring(c: string)
    ensures c in Letters <==> Contains("ABCD", c) && |c| == 1
  {
    if |c| == 1 {
      ContainsChar("ABCD", c[0]);
      assert c == [c[0]];
    }
  }

  /** The intended test is the source's test restricted to one-character answers. */
  lemma AcceptsNarrower(item: QuizItem, used: set<string>)
    ensures Accepts(item, used) <==> AcceptsAsWritten(item, used) && |item.correct| == 1
  {
    LetterSubstring(item.correct);
  }

  /**
   * A question of the shape the source's test gives is well formed, and its
   * correct part is an option key, exactly when that part is one character.
   */
  lemma AsWrittenMarkable(item: QuizItem)
    requires Shaped(AsWritten, item)
    ensures item.correct in item.options <==> |item.correct| == 1
    ensures WellFormed(item) <==> |item.correct| == 1
  {
    LetterSubstring(item.correct);
  }

  /** Four keys drawn from the four letters are all of them. */
  lemma FourLetters(keys: set<string>)
    requires keys <= Letters && |keys| == 4
    ensures keys == Letters
  {
    if x :| x in Letters && x !in keys {
      assert keys <= Letters - {x};
      assert |Letters - {x}| == 3;
      SubsetCard(keys, Letters - {x});
      assert false;
    }
  }

  lemma {:induction false} SubsetCard(a: set<string>, b: set<string>)
    requires a <= b
    ensures |a| <= |b|
    decreases |a|
  {
    if a != {} {
      var x :| x in a;
      SubsetCard(a - {x}, b - {x});
    }
  }

  /** A question with its options under A to D that `test` admits has the shape `test` promises. */
  lemma AdmittedShaped(test: Test, item: QuizItem, used: set<string>)
    requires item.options.Keys <= Letters && Admits(test, item, used)
    ensures Shaped(test, item)
  {
    FourLetters(item.options.Keys);
  }

  /** What the intended test admits, the quiz can mark: the correct letter is an option. */
  lemma AcceptedIsWellFormed(response: string, used: set<string>)
    requires Parse(response).Some? && Accepts(Parse(response).value, used)
    ensures WellFormed(Parse(response).value)
  {
    AdmittedShaped(Intended, Parse(response).value, used);
  }

  /** A parsed question whose `Correct:` line is followed by nothing. */
  const EmptyCorrect: QuizItem :=
    QuizItem("What is a key feature of scalability?", map["A" := "a", "B" := "b", "C" := "c", "D" := "d"], "")

  /**
   * The test as written admits a question whose correct answer is no option:
   * with `Correct:` followed by nothing, `correct_part` is "" and "" is in
   * "ABCD", yet `q["options"][""]` raises `KeyError` when a wrong answer is marked.
   */
  lemma AsWrittenAcceptsUnmarkable()
    ensures AcceptsAsWritten(EmptyCorrect, {}) && !Accepts(EmptyCorrect, {}) && EmptyCorrect.correct !in EmptyCorrect.options
  {
    assert EmptyCorrect.options.Keys == Letters;
    assert OccursAt("ABCD", "", 0);
    ContainsAt("ABCD", "", 0);
  }

  // ---------------------------------------------------------------------------
  // Fallback questions
  // ---------------------------------------------------------------------------

  /** The question used when a concept's response cannot be split. */
  function ConceptTemplate(concept: string, topic: string): (item: QuizItem)
    ensures WellFormed(item) && item.correct == "A"
  {
    QuizItem("What is the role of " + concept + " in " + topic + "?",
      map["A" := "A core component of " + topic, "B" := "An unrelated technology",
          "C" := "A minor feature", "D" := "A deprecated method"],
      "A")
  }

  /** The question used when a fallback response cannot be split. */
  function TopicTemplate(topic: string): (item: QuizItem)
    ensures WellFormed(item) && item.correct == "A"
  {
    QuizItem("What is a key feature of " + topic + "?",
      map["A" := "Scalability", "B" := "Local processing", "C" := "Manual operations", "D" := "Static resources"],
      "A")
  }

  // ---------------------------------------------------------------------------
  // The generation loops, as functions
  // ---------------------------------------------------------------------------

  /** The questions collected so far and `used_questions`. */
  datatype Gen = Gen(questions: seq<QuizItem>, used: set<string>)

  /**
   * One call's outcome: a parsed question that passes `test`, the fallback
   * template when the response cannot be split and its question is new, or
   * nothing.
   */
  function Decide(test: Test, used: set<string>, parsed: Option<QuizItem>, template: QuizItem): (r: Option<QuizItem>)
    ensures r.Some? ==> r.value.question !in used
    ensures parsed.None? ==> (r.Some? <==> template.question !in used) && (r.Some? ==> r.value == template)
    ensures parsed.Some? ==> (r.Some? <==> Admits(test, parsed.value, used)) && (r.Some? ==> r.value == parsed.value)
  {
    match parsed
    case None => if template.question !in used then Some(template) else None
    case Some(item) => if Admits(test, item, used) then Some(item) else None
  }

  /** `used_questions.add(q_part); questions.append(...)` when an item was decided on. */
  function Offer(test: Test, g: Gen, parsed: Option<QuizItem>, template: QuizItem): Gen {
    match Decide(test, g.used, parsed, template)
    case None => g
    case Some(item) => Gen(g.questions + [item], g.used + {item.question})
  }

  /** What each response parses to, call by call. */
  function ParseAll(responses: seq<string>): (ps: seq<Option<QuizItem>>)
    ensures |ps| == |responses|
    ensures forall i :: 0 <= i < |responses| ==> ps[i] == Parse(responses[i])
  {
    seq(|responses|, i requires 0 <= i < |responses| => Parse(responses[i]))
  }

  /** Every parsed question has its options under letters A to D. */
  predicate Readable(ps: seq<Option<QuizItem>>) {
    forall i :: 0 <= i < |ps| && ps[i].Some? ==> ps[i].value.options.Keys <= Letters
  }

  lemma ParseAllReadable(responses: seq<string>)
    ensures Readable(ParseAll(responses))
  {
  }

  /** The concept fallback for every concept, in order. */
  function ConceptTemplates(concepts: seq<string>, topic: string): (ts: seq<QuizItem>)
    ensures |ts| == |concepts|
  {
    seq(|concepts|, i requires 0 <= i < |concepts| => ConceptTemplate(concepts[i], topic))
  }

  lemma ConceptTemplatesAt(concepts: seq<string>, topic: string, i: nat)
    requires i < |concepts|
    ensures ConceptTemplates(concepts, topic)[i] == ConceptTemplate(concepts[i], topic)
  {
  }

  /**
   * The `for concept in concepts` loop from concept `i` on, `templates[i]`
   * being concept `i`'s fallback; call `i` reads the response parsed as
   * `ps[i]`. Gives the state after the loop and the number of calls made.
   */
  function ConceptPhase(test: Test, ps: seq<Option<QuizItem>>, templates: seq<QuizItem>, num: nat, i: nat, g: Gen): Option<(Gen, nat)>
    requires i <= |templates|
    decreases |templates| - i
  {
    if i == |templates| || |g.questions| >= num then Some((g, i))
    else if i >= |ps| then None
    else ConceptPhase(test, ps, templates, num, i + 1, Offer(test, g, ps[i], templates[i]))
  }

  /**
   * The `while len(questions) < num_questions` loop from call `k` on, with
   * `fallback` as the topic fallback, then `questions[:num_questions]`.
   */
  function TopicPhase(test: Test, ps: seq<Option<QuizItem>>, fallback: QuizItem, num: nat, k: nat, g: Gen): Option<seq<QuizItem>>
    decreases |ps| - k
  {
    if |g.questions| >= num then Some(Take(g.questions, num))
    else if k >= |ps| then None
    else TopicPhase(test, ps, fallback, num, k + 1, Offer(test, g, ps[k], fallback))
  }

  const Start: Gen := Gen([], {})

  /** The generator with the acceptance test `test`: the concept loop, then the topic loop. */
  function GenerateWith(test: Test, responses: seq<string>, concepts: seq<string>, topic: string, num: nat): Option<seq<QuizItem>> {
    var ps := ParseAll(responses);
    match ConceptPhase(test, ps, ConceptTemplates(concepts, topic), num, 0, Start)
    case None => None
    case Some((g, k)) => TopicPhase(test, ps, TopicTemplate(topic), num, k, g)
  }

  /** `generate_questions_from_concepts(llm, concepts, topic, num_questions)`, with the substring test it is written with. */
  function Generate(responses: seq<string>, concepts: seq<string>, topic: string, num: nat): Option<seq<QuizItem>> {
    GenerateWith(AsWritten, responses, concepts, topic, num)
  }

  // ---------------------------------------------------------------------------
  // What the generated questions satisfy
  // ---------------------------------------------------------------------------

  /** Where a question can come from: a parsed response, one of the concept fallbacks, or the topic fallback. */
  predicate FromSources(item: QuizItem, ps: seq<Option<QuizItem>>, templates: seq<QuizItem>, fallback: QuizItem) {
    Some(item) in ps || item in templates || item == fallback
  }

  /** The concept fallbacks are exactly the fallback questions of the concepts. */
  lemma ConceptTemplatesMembers(concepts: seq<string>, topic: string, item: QuizItem)
    ensures item in ConceptTemplates(concepts, topic) <==> exists c :: c in concepts && item == ConceptTemplate(c, topic)
  {
    var ts := ConceptTemplates(concepts, topic);
    if item in ts {
      var i :| 0 <= i < |ts| && ts[i] == item;
      assert concepts[i] in concepts && item == ConceptTemplate(concepts[i], topic);
    }
    if exists c :: c in concepts && item == ConceptTemplate(c, topic) {
      var c :| c in concepts && item == ConceptTemplate(c, topic);
      var i :| 0 <= i < |concepts| && concepts[i] == c;
      assert ts[i] == item;
    }
  }

  /** The texts of the questions collected: what `used_questions` holds. */
  function QuestionsOf(qs: seq<QuizItem>): set<string> {
    set i | 0 <= i < |qs| :: qs[i].question
  }

  /** Distinct question texts, every question of the shape `test` gives and drawn from the sources. */
  predicate Sound(test: Test, qs: seq<QuizItem>, ps: seq<Option<QuizItem>>, templates: seq<QuizItem>, fallback: QuizItem) {
    && (forall i, j :: 0 <= i < j < |qs| ==> qs[i].question != qs[j].question)
    && (forall i :: 0 <= i < |qs| ==> Shaped(test, qs[i]) && FromSources(qs[i], ps, templates, fallback))
  }

  /** The invariant of both loops. */
  predicate Inv(test: Test, g: Gen, num: nat, ps: seq<Option<QuizItem>>, templates: seq<QuizItem>, fallback: QuizItem) {
    |g.questions| <= num && g.used == QuestionsOf(g.questions) && Sound(test, g.questions, ps, templates, fallback)
  }

  /** Both fallbacks have the shape either test promises: their answer "A" is a letter and a substring of "ABCD". */
  lemma TemplatesShaped(test: Test, concepts: seq<string>, topic: string)
    ensures forall j :: 0 <= j < |concepts| ==> Shaped(test, ConceptTemplates(concepts, topic)[j])
    ensures Shaped(test, TopicTemplate(topic))
  {
    assert OccursAt("ABCD", "A", 0) by {
      assert "ABCD"[0..1] == "A";
    }
    ContainsAt("ABCD", "A", 0);
  }

  /** Appending a question with a new text keeps the collection sound and records its text. */
  lemma AppendKeepsSound(test: Test, qs: seq<QuizItem>, item: QuizItem, ps: seq<Option<QuizItem>>,
                         templates: seq<QuizItem>, fallback: QuizItem)
    requires Sound(test, qs, ps, templates, fallback) && item.question !in QuestionsOf(qs)
    requires Shaped(test, item) && FromSources(item, ps, templates, fallback)
    ensures Sound(test, qs + [item], ps, templates, fallback)
    ensures QuestionsOf(qs + [item]) == QuestionsOf(qs) + {item.question}
  {
    var r := qs + [item];
    assert r[|qs|] == item;
    assert forall i :: 0 <= i < |qs| ==> r[i] == qs[i];
    forall i, j | 0 <= i < j < |r| ensures r[i].question != r[j].question {
      if j == |qs| {
        assert qs[i].question in QuestionsOf(qs);
      }
    }
    forall x | x in QuestionsOf(r) ensures x in QuestionsOf(qs) + {item.question} {
      var i :| 0 <= i < |r| && r[i].question == x;
      if i < |qs| {
        assert qs[i].question in QuestionsOf(qs);
      }
    }
    forall x | x in QuestionsOf(qs) ensures x in QuestionsOf(r) {
      var i :| 0 <= i < |qs| && qs[i].question == x;
      assert r[i].question == x;
    }
  }

  /** An offer made while fewer than `num` questions are collected keeps the invariant. */
  lemma OfferKeepsInv(test: Test, g: Gen, num: nat, ps: seq<Option<QuizItem>>, templates: seq<QuizItem>, fallback: QuizItem,
                      k: nat, template: QuizItem)
    requires Inv(test, g, num, ps, templates, fallback) && |g.questions| < num
    requires k < |ps| && Readable(ps)
    requires Shaped(test, template) && FromSources(template, ps, templates, fallback)
    ensures Inv(test, Offer(test, g, ps[k], template), num, ps, templates, fallback)
  {
    var p := ps[k];
    var d := Decide(test, g.used, p, template);
    if d.Some? {
      var item := d.value;
      if p.Some? {
        AdmittedShaped(test, item, g.used);
        assert FromSources(item, ps, templates, fallback);
      }
      AppendKeepsSound(test, g.questions, item, ps, templates, fallback);
    }
  }

  /** One call of the concept loop. */
  lemma ConceptPhaseStep(test: Test, ps: seq<Option<QuizItem>>, templates: seq<QuizItem>, num: nat, i: nat, g: Gen)
    requires i < |templates| && |g.questions| < num && i < |ps|
    ensures ConceptPhase(test, ps, templates, num, i, g)
            == ConceptPhase(test, ps, templates, num, i + 1, Offer(test, g, ps[i], templates[i]))
  {
  }

  /** Offering concept `i`'s response with its fallback keeps the invariant. */
  lemma ConceptOfferKeepsInv(test: Test, ps: seq<Option<QuizItem>>, templates: seq<QuizItem>, fallback: QuizItem,
                             num: nat, i: nat, g: Gen)
    requires i < |templates| && i < |ps| && |g.questions| < num
    requires Readable(ps) && Inv(test, g, num, ps, templates, fallback)
    requires forall j :: 0 <= j < |templates| ==> Shaped(test, templates[j])
    ensures Inv(test, Offer(test, g, ps[i], templates[i]), num, ps, templates, fallback)
  {
    var template := templates[i];
    assert FromSources(template, ps, templates, fallback) by {
      assert template in templates;
    }
    OfferKeepsInv(test, g, num, ps, templates, fallback, i, template);
  }

  lemma {:induction false} ConceptPhaseInv(test: Test, ps: seq<Option<QuizItem>>, templates: seq<QuizItem>, fallback: QuizItem,
                                           num: nat, i: nat, g: Gen)
    requires i <= |templates| && Readable(ps) && Inv(test, g, num, ps, templates, fallback)
    requires forall j :: 0 <= j < |templates| ==> Shaped(test, templates[j])
    ensures var r := ConceptPhase(test, ps, templates, num, i, g);
      r.Some? ==> Inv(test, r.value.0, num, ps, templates, fallback)
    decreases |templates| - i
  {
    if i < |templates| && |g.questions| < num && i < |ps| {
      var g' := Offer(test, g, ps[i], templates[i]);
      ConceptOfferKeepsInv(test, ps, templates, fallback, num, i, g);
      ConceptPhaseStep(test, ps, templates, num, i, g);
      ConceptPhaseInv(test, ps, templates, fallback, num, i + 1, g');
    } else {
      assert ConceptPhase(test, ps, templates, num, i, g)
             == (if i == |templates| || |g.questions| >= num then Some((g, i)) else None);
    }
  }

  /** One call of the topic loop. */
  lemma TopicPhaseStep(test: Test, ps: seq<Option<QuizItem>>, fallback: QuizItem, num: nat, k: nat, g: Gen)
    requires |g.questions| < num && k < |ps|
    ensures TopicPhase(test, ps, fallback, num, k, g) == TopicPhase(test, ps, fallback, num, k + 1, Offer(test, g, ps[k], fallback))
  {
  }

  lemma {:induction false} TopicPhaseInv(test: Test, ps: seq<Option<QuizItem>>, templates: seq<QuizItem>, fallback: QuizItem,
                                         num: nat, k: nat, g: Gen)
    requires Readable(ps) && Inv(test, g, num, ps, templates, fallback) && Shaped(test, fallback)
    ensures var r := TopicPhase(test, ps, fallback, num, k, g);
      r.Some? ==> (|r.value| == num && Sound(test, r.value, ps, templates, fallback))
    decreases |ps| - k
  {
    if |g.questions| >= num {
      assert Take(g.questions, num) == g.questions;
    } else if k < |ps| {
      OfferKeepsInv(test, g, num, ps, templates, fallback, k, fallback);
      TopicPhaseInv(test, ps, templates, fallback, num, k + 1, Offer(test, g, ps[k], fallback));
    }
  }

  /**
   * A finished run of either generator returns exactly `num` questions, no two
   * with the same text, each of the shape its test promises, each taken from a
   * parsed response or from one of the two fallbacks.
   */
  lemma GenerateWithSound(test: Test, responses: seq<string>, concepts: seq<string>, topic: string, num: nat)
    ensures var r := GenerateWith(test, responses, concepts, topic, num);
      r.Some? ==> (|r.value| == num
        && Sound(test, r.value, ParseAll(responses), ConceptTemplates(concepts, topic), TopicTemplate(topic)))
  {
    var ps, ts, fb := ParseAll(responses), ConceptTemplates(concepts, topic), TopicTemplate(topic);
    TemplatesShaped(test, concepts, topic);
    ParseAllReadable(responses);
    ConceptPhaseInv(test, ps, ts, fb, num, 0, Start);
    var c := ConceptPhase(test, ps, ts, num, 0, Start);
    if c.Some? {
      TopicPhaseInv(test, ps, ts, fb, num, c.value.1, c.value.0);
    }
  }

  /**
   * A finished run of the source's generator returns exactly `num` questions,
   * no two with the same text, each with text and the four options A to D,
   * each from a parsed response or a fallback. Its correct part is only a
   * substring of "ABCD": the question is well formed exactly when that part is
   * one letter.
   */
  lemma GenerateSound(responses: seq<string>, concepts: seq<string>, topic: string, num: nat)
    ensures var r := Generate(responses, concepts, topic, num);
      r.Some? ==> (|r.value| == num
        && Sound(AsWritten, r.value, ParseAll(responses), ConceptTemplates(concepts, topic), TopicTemplate(topic))
        && forall i :: 0 <= i < |r.value| ==> (WellFormed(r.value[i]) <==> |r.value[i].correct| == 1))
  {
    GenerateWithSound(AsWritten, responses, concepts, topic, num);
    var r := Generate(responses, concepts, topic, num);
    if r.Some? {
      forall i | 0 <= i < |r.value| ensures WellFormed(r.value[i]) <==> |r.value[i].correct| == 1 {
        AsWrittenMarkable(r.value[i]);
      }
    }
  }

  /**
   * With the intended letter test, a finished run returns exactly `num`
   * questions, no two with the same text, every one well formed.
   */
  lemma IntendedGenerateSound(responses: seq<string>, concepts: seq<string>, topic: string, num: nat)
    ensures var r := GenerateWith(Intended, responses, concepts, topic, num);
      r.Some? ==> (|r.value| == num
        && Sound(Intended, r.value, ParseAll(responses), ConceptTemplates(concepts, topic), TopicTemplate(topic))
        && forall i :: 0 <= i < |r.value| ==> WellFormed(r.value[i]))
  {
    GenerateWithSound(Intended, responses, concepts, topic, num);
  }

  /** Asking for no questions makes no call and returns none. */
  lemma GenerateNone(responses: seq<string>, concepts: seq<string>, topic: string)
    ensures Generate(responses, concepts, topic, 0) == Some([])
  {
  }

  /**
   * With no concepts, two or more questions wanted and no response carrying
   * the three markers, the topic fallback is added once and every later call
   * adds nothing: the fallback loop never finishes, whatever the number of
   * responses.
   */
  lemma GenerateStuck(responses: seq<string>, topic: string, num: nat)
    requires num >= 2
    requires forall k :: 0 <= k < |responses| ==> Parse(responses[k]).None?
    ensures Generate(responses, [], topic, num) == None
  {
    var ps := ParseAll(responses);
    var t := TopicTemplate(topic);
    assert ConceptPhase(AsWritten, ps, ConceptTemplates([], topic), num, 0, Start) == Some((Start, 0));
    if responses != [] {
      var g := Gen([t], {t.question});
      assert Offer(AsWritten, Start, ps[0], t) == g;
      TopicStuck(AsWritten, ps, t, num, 1, g);
    }
  }

  lemma {:induction false} TopicStuck(test: Test, ps: seq<Option<QuizItem>>, fallback: QuizItem, num: nat, k: nat, g: Gen)
    requires |g.questions| < num
    requires fallback.question in g.used
    requires forall j :: 0 <= j < |ps| ==> ps[j].None?
    ensures TopicPhase(test, ps, fallback, num, k, g) == None
    decreases |ps| - k
  {
    if k < |ps| {
      assert Offer(test, g, ps[k], fallback) == g;
      TopicStuck(test, ps, fallback, num, k + 1, g);
    }
  }

  /**
   * With one question wanted, no concepts and a first response that cannot be
   * split, the result is the topic fallback after a single call.
   */
  lemma GenerateTopicFallback(responses: seq<string>, topic: string)
    requires |responses| >= 1 && Parse(responses[0]).None?
    ensures Generate(responses, [], topic, 1) == Some([TopicTemplate(topic)])
  {
    var ps := ParseAll(responses);
    var t := TopicTemplate(topic);
    var g := Gen([t], {t.question});
    assert Offer(AsWritten, Start, ps[0], t) == g;
    assert ConceptPhase(AsWritten, ps, ConceptTemplates([], topic), 1, 0, Start) == Some((Start, 0));
    assert Take([t], 1) == [t];
    assert TopicPhase(AsWritten, ps, t, 1, 1, g) == Some([t]);
  }

  /**
   * A whole run that shows the discrepancy: one concept, one question wanted,
   * and a first response that parses to `EmptyCorrect`. The source's generator
   * returns that question after one call; with the intended test the same
   * single response gives no question and the run needs another call. The
   * question is marked right for an answer that is blank once stripped, and
   * marking any other answer raises `KeyError`.
   */
  lemma AsWrittenRunKeepsUnmarkable(responses: seq<string>, concept: string, topic: string)
    requires |responses| >= 1 && Parse(responses[0]) == Some(EmptyCorrect)
    ensures Generate(responses, [concept], topic, 1) == Some([EmptyCorrect])
    ensures GenerateWith(Intended, responses[..1], [concept], topic, 1) == None
    ensures forall answer :: MarkingFails([EmptyCorrect], [answer]) <==> NormalizeAnswer(answer) != ""
  {
    AsWrittenRunOne(responses, concept, topic);
    IntendedRunRejects(responses[..1], concept, topic);
    forall answer ensures MarkingFails([EmptyCorrect], [answer]) <==> NormalizeAnswer(answer) != "" {
      EmptyCorrectMarking(answer);
    }
  }

  /** The source's generator keeps `EmptyCorrect` from the first call. */
  lemma AsWrittenRunOne(responses: seq<string>, concept: string, topic: string)
    requires |responses| >= 1 && Parse(responses[0]) == Some(EmptyCorrect)
    ensures Generate(responses, [concept], topic, 1) == Some([EmptyCorrect])
  {
    var t := ConceptTemplate(concept, topic);
    assert ConceptTemplates([concept], topic) == [t];
    var ps := ParseAll(responses);
    assert ps[0] == Some(EmptyCorrect);
    AsWrittenPhases(ps, t, TopicTemplate(topic));
  }

  /** Both loops of the source's generator, when the first call parses to `EmptyCorrect`. */
  lemma AsWrittenPhases(ps: seq<Option<QuizItem>>, t: QuizItem, fallback: QuizItem)
    requires |ps| >= 1 && ps[0] == Some(EmptyCorrect)
    ensures var g := Gen([EmptyCorrect], {EmptyCorrect.question});
      ConceptPhase(AsWritten, ps, [t], 1, 0, Start) == Some((g, 1))
      && TopicPhase(AsWritten, ps, fallback, 1, 1, g) == Some([EmptyCorrect])
  {
    AsWrittenAcceptsUnmarkable();
    var g := Gen([EmptyCorrect], {EmptyCorrect.question});
    assert Decide(AsWritten, {}, ps[0], t) == Some(EmptyCorrect);
    assert Offer(AsWritten, Start, ps[0], t) == g;
    assert ConceptPhase(AsWritten, ps, [t], 1, 1, g) == Some((g, 1));
    assert Take([EmptyCorrect], 1) == [EmptyCorrect];
  }

  /** The intended test rejects `EmptyCorrect`, so one response is not enough for one question. */
  lemma IntendedRunRejects(responses: seq<string>, concept: string, topic: string)
    requires |responses| == 1 && Parse(responses[0]) == Some(EmptyCorrect)
    ensures GenerateWith(Intended, responses, [concept], topic, 1) == None
  {
    AsWrittenAcceptsUnmarkable();
    var t := ConceptTemplate(concept, topic);
    var ts := ConceptTemplates([concept], topic);
    assert ts[0] == t;
    var ps := ParseAll(responses);
    assert Offer(Intended, Start, ps[0], t) == Start;
    assert ConceptPhase(Intended, ps, ts, 1, 1, Start) == Some((Start, 1));
    assert ConceptPhase(Intended, ps, ts, 1, 0, Start) == Some((Start, 1));
  }

  /** `EmptyCorrect` is marked right for an answer that is blank once stripped, and marking any other answer raises `KeyError`. */
  lemma EmptyCorrectMarking(answer: string)
    ensures MarkingFails([EmptyCorrect], [answer]) <==> NormalizeAnswer(answer) != ""
  {
    AsWrittenAcceptsUnmarkable();
    assert [answer][0] == answer && [EmptyCorrect][0] == EmptyCorrect;
  }

  // ---------------------------------------------------------------------------
  // The loops themselves
  // ---------------------------------------------------------------------------

  /** One call of either loop: parse the response, decide with the source's test, and record the decided question. */
  method TakeResponse(questions: seq<QuizItem>, used: set<string>, response: string, template: QuizItem)
    returns (questions': seq<QuizItem>, used': set<string>)
    ensures Gen(questions', used') == Offer(AsWritten, Gen(questions, used), Parse(response), template)
  {
    questions', used' := questions, used;
    var parsed := ParseResponse(response);
    var item := Decide(AsWritten, used, parsed, template);
    if item.Some? {
      used' := used' + {item.value.question};
      questions' := questions' + [item.value];
    }
  }

  /**
   * The `for concept in concepts` loop of `generate_questions_from_concepts`:
   * one call per concept until `num` questions are collected. `None` when the
   * responses run out first.
   */
  method CollectForConcepts(responses: seq<string>, concepts: seq<string>, topic: string, num: nat)
    returns (r: Option<(Gen, nat)>)
    ensures r == ConceptPhase(AsWritten, ParseAll(responses), ConceptTemplates(concepts, topic), num, 0, Start)
  {
    ghost var ps := ParseAll(responses);
    ghost var templates := ConceptTemplates(concepts, topic);
    var questions: seq<QuizItem> := [];
    var used: set<string> := {};
    var calls := 0;
    ghost var target := ConceptPhase(AsWritten, ps, templates, num, 0, Start);
    while calls < |concepts|
      invariant calls <= |concepts|
      invariant target == ConceptPhase(AsWritten, ps, templates, num, calls, Gen(questions, used))
    {
      if |questions| >= num {
        break;
      }
      if calls >= |responses| {
        assert target == None;
        return None;
      }
      var template := ConceptTemplate(concepts[calls], topic);
      ConceptTemplatesAt(concepts, topic, calls);
      assert ps[calls] == Parse(responses[calls]);
      ConceptPhaseStep(AsWritten, ps, templates, num, calls, Gen(questions, used));
      questions, used := TakeResponse(questions, used, responses[calls], template);
      calls := calls + 1;
    }
    assert target == Some((Gen(questions, used), calls));
    r := Some((Gen(questions, used), calls));
  }

  /**
   * The `while len(questions) < num_questions` loop: topic calls from call
   * `calls` on until `num` questions are collected, then the first `num`.
   */
  method FillFromTopic(responses: seq<string>, topic: string, num: nat, g: Gen, calls: nat)
    returns (r: Option<seq<QuizItem>>)
    ensures r == TopicPhase(AsWritten, ParseAll(responses), TopicTemplate(topic), num, calls, g)
  {
    ghost var ps := ParseAll(responses);
    var fallback := TopicTemplate(topic);
    var questions, used, k := g.questions, g.used, calls;
    while |questions| < num
      invariant TopicPhase(AsWritten, ps, fallback, num, calls, g) == TopicPhase(AsWritten, ps, fallback, num, k, Gen(questions, used))
      decreases |responses| - k
    {
      if k >= |responses| {
        return None;
      }
      assert ps[k] == Parse(responses[k]);
      TopicPhaseStep(AsWritten, ps, fallback, num, k, Gen(questions, used));
      questions, used := TakeResponse(questions, used, responses[k], fallback);
      k := k + 1;
    }
    r := Some(Take(questions, num));
  }

  /**
   * `generate_questions_from_concepts(llm, concepts, topic, num_questions)`:
   * the concept loop, then the topic loop. A finished run has `num`
   * questions, no two alike, each with text, the four options and a correct
   * part that is a substring of "ABCD", each drawn from a parsed response or a
   * fallback.
   */
  method GenerateQuestions(responses: seq<string>, concepts: seq<string>, topic: string, num: nat)
    returns (r: Option<seq<QuizItem>>)
    ensures r == Generate(responses, concepts, topic, num)
    ensures r.Some? ==> |r.value| == num
    ensures r.Some? ==> Sound(AsWritten, r.value, ParseAll(responses), ConceptTemplates(concepts, topic), TopicTemplate(topic))
  {
    var afterConcepts := CollectForConcepts(responses, concepts, topic, num);
    if afterConcepts.None? {
      return None;
    }
    var (g, calls) := afterConcepts.value;
    r := FillFromTopic(responses, topic, num, g, calls);
    GenerateWithSound(AsWritten, responses, concepts, topic, num);
  }

  // ---------------------------------------------------------------------------
  // The baseline assessment
  // ---------------------------------------------------------------------------

  /** `input(...).strip().upper()`. */
  function NormalizeAnswer(answer: string): string {
    Upper(Strip(answer))
  }

  /** Whether a console answer, normalised, is the question's correct part. */
  predicate AnsweredRight(answer: string, item: QuizItem) {
    NormalizeAnswer(answer) == item.correct
  }

  /**
   * Marking `answer` to `item` raises `KeyError`: the answer is wrong, and the
   * message that shows the correct option looks up `options[correct]`, which
   * is no key.
   */
  predicate Unmarkable(answer: string, item: QuizItem) {
    !AnsweredRight(answer, item) && item.correct !in item.options
  }

  /** Some question of the quiz cannot be marked with its answer, answer `i` going with question `i`. */
  predicate MarkingFails(questions: seq<QuizItem>, answers: seq<string>)
    requires |answers| >= |questions|
  {
    exists i :: 0 <= i < |questions| && Unmarkable(answers[i], questions[i])
  }

  /** Well-formed questions are always marked. */
  lemma WellFormedMarks(questions: seq<QuizItem>, answers: seq<string>)
    requires |answers| >= |questions|
    requires forall i :: 0 <= i < |questions| ==> WellFormed(questions[i])
    ensures !MarkingFails(questions, answers)
  {
  }

  /**
   * For questions of the shape the source's generator returns, marking fails
   * exactly when some question whose correct part is not one letter gets an
   * answer other than that part.
   */
  lemma AsWrittenMarkingFails(questions: seq<QuizItem>, answers: seq<string>)
    requires |answers| >= |questions|
    requires forall i :: 0 <= i < |questions| ==> Shaped(AsWritten, questions[i])
    ensures MarkingFails(questions, answers) <==>
      exists i :: 0 <= i < |questions| && |questions[i].correct| != 1 && NormalizeAnswer(answers[i]) != questions[i].correct
  {
    forall i | 0 <= i < |questions|
      ensures Unmarkable(answers[i], questions[i]) <==> |questions[i].correct| != 1 && NormalizeAnswer(answers[i]) != questions[i].correct
    {
      AsWrittenMarkable(questions[i]);
    }
  }

  /** How many of the questions the answers get right, answer `i` going with question `i`. */
  function Matches(questions: seq<QuizItem>, answers: seq<string>): (n: nat)
    requires |answers| >= |questions|
    ensures n <= |questions|
    decreases |questions|
  {
    if questions == [] then 0
    else (if AnsweredRight(answers[0], questions[0]) then 1 else 0) + Matches(questions[1..], answers[1..])
  }

  /** The questions from `i` on score what question `i` scores plus what the ones after it score. */
  lemma MatchesStep(questions: seq<QuizItem>, answers: seq<string>, i: nat)
    requires i < |questions| <= |answers|
    ensures Matches(questions[i..], answers[i..]) ==
            (if AnsweredRight(answers[i], questions[i]) then 1 else 0) + Matches(questions[i + 1..], answers[i + 1..])
  {
    assert questions[i..][1..] == questions[i + 1..];
    assert answers[i..][1..] == answers[i + 1..];
  }

  /** `(correct / len(questions)) * 100`. */
  function Percent(correct: nat, total: nat): (p: real)
    requires 0 < total && correct <= total
    ensures 0.0 <= p <= 100.0
    ensures p == 100.0 <==> correct == total
    ensures p == 0.0 <==> correct == 0
  {
    (correct as real / total as real) * 100.0
  }

  /**
   * `assess_baseline_knowledge(llm, topic, content)`: `content` is the content
   * dictionary as its (file name, text) items in insertion order, `responses`
   * the model's replies and `answers` the console lines. No content scores 0
   * without any call; otherwise the key concepts (five at most) of the texts,
   * in order, feed a two-question quiz and the score is the percentage
   * answered right. `None` when the generator does not finish or marking an
   * answer raises `KeyError`.
   */
  method AssessBaselineKnowledge(content: seq<(string, string)>, topic: string, responses: seq<string>, answers: seq<string>)
    returns (score: Option<real>)
    requires |answers| >= 2
    ensures content == [] ==> score == Some(0.0)
    ensures content != [] ==>
      match Generate(responses, ExtractKeyConcepts(Values(content), topic, 5), topic, 2)
      case None => score.None?
      case Some(qs) =>
        |qs| == 2 && score == if MarkingFails(qs, answers) then None else Some(Percent(Matches(qs, answers), 2))
    ensures score.Some? ==> 0.0 <= score.value <= 100.0
  {
    if content == [] {
      return Some(0.0);
    }
    var concepts := ExtractKeyConcepts(Values(content), topic, 5);
    var generated := GenerateQuestions(responses, concepts, topic, 2);
    if generated.None? {
      return None;
    }
    var correct := CountCorrect(generated.value, answers);
    if correct.None? {
      return None;
    }
    score := Some(Percent(correct.value, |generated.value|));
  }

  /**
   * The answer loop of `assess_baseline_knowledge`: one console answer per
   * question, stripped and upper-cased. A wrong answer to a question whose
   * correct part is no option key ends the loop with `KeyError` (`None`).
   */
  method CountCorrect(questions: seq<QuizItem>, answers: seq<string>) returns (correct: Option<nat>)
    requires |answers| >= |questions|
    ensures correct.None? <==> MarkingFails(questions, answers)
    ensures correct.Some? ==> correct.value == Matches(questions, answers)
  {
    var right := 0;
    var i := 0;
    assert questions[0..] == questions && answers[0..] == answers;
    while i < |questions|
      invariant 0 <= i <= |questions|
      invariant right + Matches(questions[i..], answers[i..]) == Matches(questions, answers)
      invariant forall j :: 0 <= j < i ==> !Unmarkable(answers[j], questions[j])
    {
      var answer := NormalizeAnswer(answers[i]);
      MatchesStep(questions, answers, i);
      if answer == questions[i].correct {
        right := right + 1;
      } else if questions[i].correct !in questions[i].options {
        assert Unmarkable(answers[i], questions[i]);
        return None;
      }
      i := i + 1;
    }
    correct := Some(right);
  }
}
