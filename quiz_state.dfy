/**
  The quiz session as a value: the seven session fields, the invariant every
  reachable session keeps, and the three transitions (start a topic, submit
  an answer, restart) as functions. The question bank is a parameter (a
  well-formed `map` from topic name to questions); the application uses
  `TopicQuestions`. The class in QuizApp is proved to follow these functions.
 */
module QuizState {

  import opened Wrappers
  import opened Text
  import opened QuestionBank

  type Bank = map<string, seq<Question>>

  /** One entry of the chat transcript: the question shown, the raw text submitted, the question's image. */
  datatype Record = Record(question: string, userAnswer: string, image: Option<string>)

  datatype Session = Session(
    started: bool,
    topic: Option<string>,
    questions: seq<Question>,
    step: nat,
    failed: bool,
    completed: bool,
    history: seq<Record>)

  datatype StartOutcome = Started | AlreadyStarted | UnknownTopic

  datatype SubmitOutcome = NotInProgress | NoInput | CorrectAdvanced | CorrectCompleted | Incorrect

  /** The next session and what the transition reported. */
  datatype Transition<O> = Transition(next: Session, outcome: O)

  /** The state a fresh session is given, and the one `restart()` returns to. */
  function Initial(): (s: Session)
    ensures forall bank: Bank :: Valid(bank, s) && Current(bank, s) == None
  {
    Session(false, None, [], 0, false, false, [])
  }

  /** A question is being asked: the topic is chosen and the game is neither lost nor won. */
  predicate InProgress(s: Session)
  {
    s.started && !s.failed && !s.completed
  }

  /** The answer submitted as `raw` is accepted for `q`: only the input is stripped, and the comparison is exact. */
  predicate IsCorrect(raw: string, q: Question)
  {
    Strip(raw) == q.answer
  }

  /** `raw` holds `a` at offset `i`, with only whitespace before and after it. */
  predicate PaddedAt(raw: string, a: string, i: int)
  {
    0 <= i <= |raw| - |a| &&
    raw[i..i + |a|] == a && AllWhitespace(raw[..i]) && AllWhitespace(raw[i + |a|..])
  }

  /**
    An input is accepted exactly when it is the stored answer with only
    whitespace around it, and the stored answer itself has none: the answer
    is never stripped, and there is no case folding.
   */
  lemma IsCorrectCharacterised(raw: string, q: Question)
    ensures IsCorrect(raw, q) <==> IsTrimmed(q.answer) && exists i :: PaddedAt(raw, q.answer, i)
  {
    if IsCorrect(raw, q) {
      var _ := CorrectIsPadded(raw, q);
    }
    if IsTrimmed(q.answer) && exists i :: PaddedAt(raw, q.answer, i) {
      var i :| PaddedAt(raw, q.answer, i);
      PaddedIsCorrect(raw, q, i);
    }
  }

  /** An accepted input is the (trimmed) answer with whitespace around it. */
  lemma CorrectIsPadded(raw: string, q: Question) returns (i: nat)
    requires IsCorrect(raw, q)
    ensures IsTrimmed(q.answer) && PaddedAt(raw, q.answer, i)
  {
    var j;
    i, j := StripIsSlice(raw);
  }

  /** A trimmed answer with only whitespace around it is accepted. */
  lemma PaddedIsCorrect(raw: string, q: Question, i: int)
    requires IsTrimmed(q.answer) && PaddedAt(raw, q.answer, i)
    ensures IsCorrect(raw, q)
  {
    StripSlice(raw, i, i + |q.answer|);
  }

  /** `r` is the transcript entry for submitting some non-empty text to `q`. */
  predicate RecordsQuestion(r: Record, q: Question)
  {
    r.question == q.prompt && r.image == q.image && r.userAnswer != []
  }

  /**
    The invariant of every reachable session.
    - Before a topic is started nothing else is set, which is why starting
      need not reset the other fields.
    - Once started, `questions` is the chosen topic's list in the bank.
    - `failed` and `completed` exclude each other; `completed` means every
      question was answered, `failed` that the question at `step` was not.
    - The transcript has one entry per question answered, plus the wrong
      answer when the game was lost; each entry names its question, and the
      first `step` entries were correct.
   */
  predicate Valid(bank: Bank, s: Session)
  {
    && s.step <= |s.questions|
    && (!s.started ==>
          s.topic == None && s.questions == [] && s.step == 0 &&
          !s.failed && !s.completed && s.history == [])
    && (s.started ==>
          s.topic.Some? && s.topic.value in bank && s.questions == bank[s.topic.value] &&
          (s.completed <==> s.step == |s.questions|))
    && !(s.failed && s.completed)
    && (s.failed ==> s.step < |s.questions|)
    && |s.history| == s.step + (if s.failed then 1 else 0)
    && (forall i | 0 <= i < |s.history| :: i < |s.questions| && RecordsQuestion(s.history[i], s.questions[i]))
    && (forall i | 0 <= i < s.step :: IsCorrect(s.history[i].userAnswer, s.questions[i]))
    && (s.failed ==> !IsCorrect(s.history[s.step].userAnswer, s.questions[s.step]))
  }

  /** The question shown to the player, present exactly while the game is in progress. */
  function Current(bank: Bank, s: Session): (q: Option<Question>)
    requires Valid(bank, s)
    ensures q.Some? <==> InProgress(s)
    ensures q.Some? ==> s.step < |s.questions| && q.value == s.questions[s.step]
  {
    if InProgress(s) then Some(s.questions[s.step]) else None
  }

  /** Pressing Start with `topic` selected. */
  function StartStep(bank: Bank, s: Session, topic: string): (r: Transition<StartOutcome>)
    requires WellFormedBank(bank) && Valid(bank, s)
    ensures Valid(bank, r.next)
    ensures r.outcome == Started <==> !s.started && topic in bank
    ensures r.outcome == AlreadyStarted <==> s.started
    ensures r.outcome != Started ==> r.next == s
    ensures r.outcome == Started ==>
      r.next == s.(started := true, topic := Some(topic), questions := bank[topic]) &&
      r.next.step == 0 && r.next.history == [] && InProgress(r.next)
  {
    if s.started then
      Transition(s, AlreadyStarted)
    else if topic !in bank then
      Transition(s, UnknownTopic)
    else
      Transition(s.(topic := Some(topic), questions := bank[topic], started := true), Started)
  }

  /** Submitting `input` from the chat box (`None` when nothing was submitted). */
  function SubmitStep(bank: Bank, s: Session, input: Option<string>): (r: Transition<SubmitOutcome>)
    requires Valid(bank, s)
    ensures Valid(bank, r.next)
    ensures r.next.started == s.started && r.next.topic == s.topic && r.next.questions == s.questions
    ensures r.outcome == NotInProgress <==> !InProgress(s)
    ensures r.outcome == NoInput <==> InProgress(s) && (input == None || input == Some([]))
    ensures r.outcome in {NotInProgress, NoInput} <==> r.next == s
    ensures r.outcome !in {NotInProgress, NoInput} ==>
      r.next.history == s.history + [Record(s.questions[s.step].prompt, input.value, s.questions[s.step].image)]
    ensures r.outcome in {CorrectAdvanced, CorrectCompleted} <==>
      InProgress(s) && input.Some? && input.value != [] && IsCorrect(input.value, s.questions[s.step])
    ensures r.outcome in {CorrectAdvanced, CorrectCompleted} ==>
      r.next.step == s.step + 1 && !r.next.failed &&
      (r.outcome == CorrectCompleted <==> r.next.step == |s.questions|) &&
      (r.next.completed <==> r.next.step == |s.questions|)
    ensures r.outcome == Incorrect ==> r.next.failed && r.next.step == s.step && !r.next.completed
  {
    if !InProgress(s) then
      Transition(s, NotInProgress)
    else
      var q := s.questions[s.step];
      if input == None || input == Some([]) then
        Transition(s, NoInput)
      else
        var raw := input.value;
        var h := s.history + [Record(q.prompt, raw, q.image)];
        if IsCorrect(raw, q) then
          CorrectKeepsValid(bank, s, raw);
          var step := s.step + 1;
          if step >= |s.questions| then
            Transition(s.(history := h, step := step, completed := true), CorrectCompleted)
          else
            Transition(s.(history := h, step := step), CorrectAdvanced)
        else
          IncorrectKeepsValid(bank, s, raw);
          Transition(s.(history := h, failed := true), Incorrect)
  }

  /** What a correct, non-empty answer does keeps the invariant. */
  lemma CorrectKeepsValid(bank: Bank, s: Session, raw: string)
    requires Valid(bank, s) && InProgress(s) && raw != []
    requires IsCorrect(raw, s.questions[s.step])
    ensures var q := s.questions[s.step];
      var h := s.history + [Record(q.prompt, raw, q.image)];
      Valid(bank, if s.step + 1 >= |s.questions|
            then s.(history := h, step := s.step + 1, completed := true)
            else s.(history := h, step := s.step + 1))
  {
  }

  /** What a wrong, non-empty answer does keeps the invariant. */
  lemma IncorrectKeepsValid(bank: Bank, s: Session, raw: string)
    requires Valid(bank, s) && InProgress(s) && raw != []
    requires !IsCorrect(raw, s.questions[s.step])
    ensures var q := s.questions[s.step];
      Valid(bank, s.(history := s.history + [Record(q.prompt, raw, q.image)], failed := true))
  {
  }

  /** Submitting each of `inputs` in turn. */
  function Play(bank: Bank, s: Session, inputs: seq<Option<string>>): (e: Session)
    requires Valid(bank, s)
    ensures Valid(bank, e)
    ensures e.started == s.started && e.topic == s.topic && e.questions == s.questions
    ensures s.step <= e.step && s.history <= e.history
    ensures (s.failed ==> e.failed) && (s.completed ==> e.completed)
    decreases |inputs|
  {
    if inputs == [] then s else Play(bank, SubmitStep(bank, s, inputs[0]).next, inputs[1..])
  }

  /** Each question's stored answer, submitted verbatim. */
  function ExactAnswers(qs: seq<Question>): (inputs: seq<Option<string>>)
    ensures |inputs| == |qs|
    ensures forall i | 0 <= i < |qs| :: inputs[i] == Some(qs[i].answer)
  {
    if qs == [] then [] else [Some(qs[0].answer)] + ExactAnswers(qs[1..])
  }

  /** Once the game is not in progress, no submission changes anything. */
  lemma {:induction false} NotInProgressIsFinal(bank: Bank, s: Session, inputs: seq<Option<string>>)
    requires Valid(bank, s) && !InProgress(s)
    ensures Play(bank, s, inputs) == s
    decreases |inputs|
  {
    if inputs != [] {
      NotInProgressIsFinal(bank, SubmitStep(bank, s, inputs[0]).next, inputs[1..]);
    }
  }

  /**
    One strike: a wrong answer ends the game at once, whatever is submitted
    afterwards, with the wrong answer as the last transcript entry.
   */
  lemma OneStrike(bank: Bank, s: Session, raw: string, rest: seq<Option<string>>)
    requires Valid(bank, s) && InProgress(s)
    requires raw != [] && !IsCorrect(raw, s.questions[s.step])
    ensures var e := Play(bank, s, [Some(raw)] + rest);
      e.failed && !e.completed && e.step == s.step && |e.history| == s.step + 1 &&
      e.history[s.step].userAnswer == raw && Current(bank, e) == None
  {
    var t := SubmitStep(bank, s, Some(raw)).next;
    assert ([Some(raw)] + rest)[1..] == rest;
    NotInProgressIsFinal(bank, t, rest);
  }

  /** A topic with two or more questions, answered right and then wrong, is lost with two records. */
  lemma LostOnSecond(bank: Bank, topic: string, wrong: string)
    requires WellFormedBank(bank) && topic in bank && |bank[topic]| >= 2
    requires wrong != [] && !IsCorrect(wrong, bank[topic][1])
    ensures var s := StartStep(bank, Initial(), topic).next;
      var r1 := SubmitStep(bank, s, Some(bank[topic][0].answer));
      var r2 := SubmitStep(bank, r1.next, Some(wrong));
      r1.outcome == CorrectAdvanced && r2.outcome == Incorrect &&
      r2.next.failed && |r2.next.history| == 2 && Current(bank, r2.next) == None
  {
    var s := StartStep(bank, Initial(), topic).next;
    var r1 := ExactAnswerAccepted(bank, s);
    assert r1.next.step == 1 < |bank[topic]|;
  }

  /**
    Answering every remaining question with its exact answer wins the game,
    with one transcript entry per question.
   */
  lemma {:induction false} ExactAnswersComplete(bank: Bank, s: Session)
    requires Valid(bank, s) && InProgress(s)
    requires forall j | s.step <= j < |s.questions| :: Answerable(s.questions[j])
    ensures var e := Play(bank, s, ExactAnswers(s.questions[s.step..]));
      e.completed && !e.failed && e.step == |e.questions| && |e.history| == |e.questions|
    decreases |s.questions| - s.step
  {
    var q := s.questions[s.step];
    var inputs := ExactAnswers(s.questions[s.step..]);
    var r := ExactAnswerAccepted(bank, s);
    var t := r.next;
    assert inputs[0] == Some(q.answer);
    assert Play(bank, s, inputs) == Play(bank, t, inputs[1..]);
    if t.completed {
      assert inputs[1..] == [];
    } else {
      assert inputs[1..] == ExactAnswers(t.questions[t.step..]) by {
        assert s.questions[s.step..][1..] == s.questions[s.step + 1..];
      }
      ExactAnswersComplete(bank, t);
    }
  }

  /** Submitting the current question's stored answer moves to the next question or wins. */
  lemma ExactAnswerAccepted(bank: Bank, s: Session) returns (r: Transition<SubmitOutcome>)
    requires Valid(bank, s) && InProgress(s) && Answerable(s.questions[s.step])
    ensures r == SubmitStep(bank, s, Some(s.questions[s.step].answer))
    ensures r.outcome in {CorrectAdvanced, CorrectCompleted}
    ensures r.next.questions == s.questions && r.next.step == s.step + 1 && !r.next.failed
    ensures r.next.completed <==> r.next.step == |s.questions|
  {
    StripTrimmed(s.questions[s.step].answer);
    r := SubmitStep(bank, s, Some(s.questions[s.step].answer));
  }

  /** Every topic of a well-formed bank can be won by answering with the stored answers. */
  lemma TopicCanBeWon(bank: Bank, topic: string)
    requires WellFormedBank(bank) && topic in bank
    ensures var s := StartStep(bank, Initial(), topic).next;
      var e := Play(bank, s, ExactAnswers(bank[topic]));
      e.completed && !e.failed && |e.history| == |bank[topic]|
  {
    var s := StartStep(bank, Initial(), topic).next;
    assert s.questions[s.step..] == bank[topic];
    ExactAnswersComplete(bank, s);
  }
}
