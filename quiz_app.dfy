/**
  The quiz session as the application keeps it: seven mutable fields,
  changed in place by restart, by pressing Start and by submitting an
  answer. Each method is proved to move the fields exactly as the matching
  function of QuizState moves a `Session` value. The session reads the
  shared, never-modified bank through `bank`, which is `TopicQuestions`.
 */
module QuizApp {

  import opened Wrappers
  import opened Text
  import opened QuestionBank
  import opened QuizState

  class QuizSession {
    const bank: Bank
    var started: bool
    var topic: Option<string>
    var questions: seq<Question>
    var step: nat
    var failed: bool
    var completed: bool
    var history: seq<Record>

    /** The fields as a `Session` value. */
    function State(): Session
      reads this
    {
      Session(started, topic, questions, step, failed, completed, history)
    }

    predicate Valid()
      reads this
    {
      WellFormedBank(bank) && QuizState.Valid(bank, State())
    }

    /** The seven fields a fresh session is given. */
    constructor ()
      ensures Valid() && bank == TopicQuestions && State() == Initial()
    {
      TopicQuestionsWellFormed();
      bank := TopicQuestions;
      started := false;
      topic := None;
      questions := [];
      step := 0;
      failed := false;
      completed := false;
      history := [];
    }

    /** Every field goes back to its initial value, from any state. */
    method Restart()
      requires WellFormedBank(bank)
      modifies this
      ensures Valid() && State() == Initial()
    {
      started := false;
      topic := None;
      questions := [];
      step := 0;
      failed := false;
      completed := false;
      history := [];
    }

    /** Pressing Start with `selected` chosen; only offered before a topic is started. */
    method Start(selected: string) returns (outcome: StartOutcome)
      requires Valid()
      modifies this
      ensures Valid()
      ensures Transition(State(), outcome) == StartStep(bank, old(State()), selected)
    {
      if started {
        return AlreadyStarted;
      }
      if selected !in bank {
        return UnknownTopic;
      }
      topic := Some(selected);
      questions := bank[selected];
      started := true;
      outcome := Started;
    }

    /**
      Submitting `input` (`None` when nothing was entered) while a question
      is shown: record it, then compare its stripped text with the answer.
     */
    method Submit(input: Option<string>) returns (outcome: SubmitOutcome)
      requires Valid()
      modifies this
      ensures Valid()
      ensures Transition(State(), outcome) == SubmitStep(bank, old(State()), input)
    {
      ghost var expected := SubmitStep(bank, State(), input);
      if !started || failed || completed {
        return NotInProgress;
      }
      var q := questions[step];
      if input == None || input.value == "" {
        return NoInput;
      }
      var raw := input.value;
      history := history + [Record(q.prompt, raw, q.image)];
      if Strip(raw) == q.answer {
        step := step + 1;
        if step >= |questions| {
          completed := true;
          outcome := CorrectCompleted;
        } else {
          outcome := CorrectAdvanced;
        }
      } else {
        failed := true;
        outcome := Incorrect;
      }
      assert State() == expected.next;
      assert QuizState.Valid(bank, expected.next);
    }
  }
}
