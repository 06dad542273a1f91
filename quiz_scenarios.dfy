/**
  Concrete games on the application's bank `TopicQuestions`, stated once
  over the session value and once through the session object.
 */
module QuizScenarios {

  import opened Wrappers
  import opened Text
  import opened QuestionBank
  import opened QuizState
  import opened QuizApp

  /** Surrounding whitespace is ignored, a difference in case is not. */
  lemma MatchingIsStripThenExact()
    ensures IsCorrect(" Mars ", TopicQuestions["Astronomy"][0])
    ensures !IsCorrect("mars", TopicQuestions["Astronomy"][0])
  {
    StripPadded(" ", "Mars", " ");
    assert " " + "Mars" + " " == " Mars ";
    StripTrimmed("mars");
    assert "mars"[0] != "Mars"[0];
  }

  /** Every topic the selector offers starts a game: `UnknownTopic` cannot arise from the selector. */
  lemma ListedTopicStarts(s: Session, selected: string)
    requires Valid(TopicQuestions, s) && !s.started && selected in TopicNames
    ensures WellFormedBank(TopicQuestions)
    ensures StartStep(TopicQuestions, s, selected).outcome == Started
  {
    TopicQuestionsWellFormed();
    TopicNamesListBank();
  }

  /** Astronomy answered "Mars" then "1" is won with two transcript entries. */
  lemma AstronomyWon()
    ensures WellFormedBank(TopicQuestions)
    ensures var s := StartStep(TopicQuestions, Initial(), "Astronomy").next;
      var e := Play(TopicQuestions, s, [Some("Mars"), Some("1")]);
      e.completed && !e.failed && |e.history| == 2 && Current(TopicQuestions, e) == None
  {
    TopicQuestionsWellFormed();
    var qs := TopicQuestions["Astronomy"];
    assert ExactAnswers(qs) == [Some("Mars"), Some("1")];
    TopicCanBeWon(TopicQuestions, "Astronomy");
  }

  /** History answered "1945" then "Thomas Jefferson" is lost on the second answer. */
  lemma HistoryLostOnSecond()
    ensures WellFormedBank(TopicQuestions)
    ensures var s := StartStep(TopicQuestions, Initial(), "History").next;
      var s1 := SubmitStep(TopicQuestions, s, Some("1945"));
      var s2 := SubmitStep(TopicQuestions, s1.next, Some("Thomas Jefferson"));
      s1.outcome == CorrectAdvanced && s2.outcome == Incorrect &&
      s2.next.failed && |s2.next.history| == 2 && Current(TopicQuestions, s2.next) == None
  {
    TopicQuestionsWellFormed();
    var qs := TopicQuestions["History"];
    assert qs[0].answer == "1945";
    StripTrimmed("Thomas Jefferson");
    assert "Thomas Jefferson"[0] != qs[1].answer[0];
    LostOnSecond(TopicQuestions, "History", "Thomas Jefferson");
  }

  /** The Astronomy game driven through the session object, with padded input. */
  method AstronomyThroughSession() returns (first: SubmitOutcome, second: SubmitOutcome, won: bool, records: nat)
    ensures first == CorrectAdvanced && second == CorrectCompleted
    ensures won && records == 2
  {
    var session := new QuizSession();
    var started := session.Start("Astronomy");
    assert started == Started;
    MatchingIsStripThenExact();
    first := session.Submit(Some(" Mars "));
    StripTrimmed("1");
    second := session.Submit(Some("1"));
    won := session.completed && !session.failed;
    records := |session.history|;
  }
}
