/**
  The constant question bank `TOPIC_QUESTIONS`: each topic name maps to an
  ordered list of questions. A question has a prompt, an optional list of
  options (multiple choice), the expected answer and an optional image.
 */
module QuestionBank {

  import opened Wrappers
  import opened Text

  datatype Question = Question(prompt: string, options: Option<seq<string>>, answer: string, image: Option<string>)

  const AstronomyQuestions: seq<Question> := [
    Question("Which planet is known as the Red Planet?", Some(["Earth", "Mars", "Venus"]), "Mars", None),
    Question("How many moons does Earth have?", None, "1", None)
  ]

  const HistoryQuestions: seq<Question> := [
    Question("In which year did World War II end?", Some(["1943", "1945", "1950"]), "1945", None),
    Question("Who was the first president of the United States?", None, "George Washington", None)
  ]

  const EntertainmentQuestions: seq<Question> := [
    Question("When was Lkr born?", Some(["2000", "2001", "2002", "2003"]), "2002", None),
    Question("Who is shown in this photo?", Some(["Xiao Wang", "Lkr", "Zhang San"]), "Lkr", Some("profile photo.jpg"))
  ]

  const TopicQuestions: map<string, seq<Question>> := map[
    "Astronomy" := AstronomyQuestions,
    "History" := HistoryQuestions,
    "Entertainment" := EntertainmentQuestions
  ]

  /** The topic names in the order the bank lists them (`list(TOPIC_QUESTIONS.keys())`). */
  const TopicNames: seq<string> := ["Astronomy", "History", "Entertainment"]

  /** A multiple-choice question's answer is one of its options. */
  predicate WellFormedQuestion(q: Question)
  {
    q.options.Some? ==> q.answer in q.options.value
  }

  /**
    Some submitted text matches the answer: it is non-empty (an empty
    submission is ignored) and has no surrounding whitespace (only the input
    is stripped before comparing).
   */
  predicate Answerable(q: Question)
  {
    q.answer != [] && IsTrimmed(q.answer)
  }

  /** Every topic has at least one question, and every question is well formed and answerable. */
  predicate WellFormedBank(bank: map<string, seq<Question>>)
  {
    forall t | t in bank :: WellFormedTopic(bank[t])
  }

  /** A topic's list: at least one question, each well formed and answerable. */
  predicate WellFormedTopic(qs: seq<Question>)
  {
    |qs| >= 1 && forall i | 0 <= i < |qs| :: WellFormedQuestion(qs[i]) && Answerable(qs[i])
  }

  lemma TopicQuestionsWellFormed()
    ensures WellFormedBank(TopicQuestions)
  {
    AstronomyWellFormed();
    HistoryWellFormed();
    EntertainmentWellFormed();
    assert TopicQuestions.Keys == {"Astronomy", "History", "Entertainment"};
  }

  lemma AstronomyWellFormed()
    ensures WellFormedTopic(AstronomyQuestions)
  {
  }

  lemma HistoryWellFormed()
    ensures WellFormedTopic(HistoryQuestions)
  {
  }

  lemma EntertainmentWellFormed()
    ensures WellFormedTopic(EntertainmentQuestions)
  {
  }

  /** The listed topic names are exactly the bank's keys, each once. */
  lemma TopicNamesListBank()
    ensures forall t :: t in TopicNames <==> t in TopicQuestions
    ensures forall i, j | 0 <= i < j < |TopicNames| :: TopicNames[i] != TopicNames[j]
  {
    assert TopicQuestions.Keys == {"Astronomy", "History", "Entertainment"};
  }
}
