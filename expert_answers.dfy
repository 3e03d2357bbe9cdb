/** The Expert Answers page: the questions that have at least one answer,
    narrowed by a search term and a topic, grouped by topic, each shown with
    its answers. */
module ExpertAnswers {
  import opened Records
  import opened Seqs
  import opened Tally
  import opened Text
  import opened RecentQuestions

  /** `answers.some(answer => answer.question_id === questionId)`. */
  predicate HasAnswer(answers: seq<Answer>, questionId: string)
  {
    exists a :: a in answers && a.questionId == questionId
  }

  /** Having an answer is having a positive answer count, that is being shown
      as Answered on the Recent Questions page. */
  lemma HasAnswerIffCounted(answers: seq<Answer>, questionId: string)
    ensures HasAnswer(answers, questionId) <==> AnswerCount(answers, questionId) > 0
    ensures HasAnswer(answers, questionId) <==> Status(answers, questionId) == Answered
  {
    CountedIffNamed(answers, questionId);
  }

  /** answeredQuestions: exactly the questions with an answer, each as often
      as in the cache, in the cache's order. */
  function AnsweredQuestions(questions: seq<Question>, answers: seq<Answer>): (r: seq<Question>)
    ensures IsSubsequence(r, questions)
    ensures forall q :: multiset(r)[q] == if HasAnswer(answers, q.id) then multiset(questions)[q] else 0
  {
    var answered := (q: Question) => HasAnswer(answers, q.id);
    FilterIsSubsequence(questions, answered);
    FilterCount(questions, answered);
    Filter(questions, answered)
  }

  /** The topic filter: the empty selection and "All" let every question through. */
  predicate MatchesTopic(selectedTopic: string, q: Question)
  {
    selectedTopic == "All" || selectedTopic == "" || q.topic == selectedTopic
  }

  /** The search filter: the term occurs in the question text, ignoring case. */
  predicate MatchesSearch(searchTerm: string, q: Question)
  {
    MatchesIgnoringCase(q.text, searchTerm)
  }

  /** filteredQuestions: the answered questions that pass both filters, in order. */
  function FilteredQuestions(questions: seq<Question>, answers: seq<Answer>, searchTerm: string, selectedTopic: string): (r: seq<Question>)
    ensures IsSubsequence(r, AnsweredQuestions(questions, answers))
    ensures IsSubsequence(r, questions)
    ensures forall q :: multiset(r)[q] ==
                        if HasAnswer(answers, q.id) && MatchesSearch(searchTerm, q) && MatchesTopic(selectedTopic, q)
                        then multiset(questions)[q] else 0
  {
    var answered := AnsweredQuestions(questions, answers);
    var shown := (q: Question) => MatchesSearch(searchTerm, q) && MatchesTopic(selectedTopic, q);
    FilterIsSubsequence(answered, shown);
    FilterCount(answered, shown);
    SubsequenceTransitive(Filter(answered, shown), answered, questions);
    Filter(answered, shown)
  }

  /** With no search term and no topic selected the page shows every answered
      question. */
  lemma NoFilterShowsAllAnswered(questions: seq<Question>, answers: seq<Answer>, selectedTopic: string)
    requires selectedTopic == "" || selectedTopic == "All"
    ensures FilteredQuestions(questions, answers, "", selectedTopic) == AnsweredQuestions(questions, answers)
  {
    var answered := AnsweredQuestions(questions, answers);
    var shown := (q: Question) => MatchesSearch("", q) && MatchesTopic(selectedTopic, q);
    forall q | q in answered ensures shown(q) {
      EmptyTermMatches(q.text);
    }
    FilterAll(answered, shown);
  }

  /** getAnswersForQuestion: exactly the answers naming the question, in the
      cache's order; as many as its answer count. */
  function AnswersForQuestion(answers: seq<Answer>, questionId: string): (r: seq<Answer>)
    ensures IsSubsequence(r, answers)
    ensures forall a :: multiset(r)[a] == if a.questionId == questionId then multiset(answers)[a] else 0
    ensures |r| == AnswerCount(answers, questionId)
  {
    WithKeyIsGroup(answers, QuestionIdOf, questionId);
    WithKey(answers, QuestionIdOf, questionId)
  }

  /** Every question the page lists has at least one answer to show under it. */
  lemma ShownQuestionsHaveAnswers(questions: seq<Question>, answers: seq<Answer>, q: Question)
    requires q in AnsweredQuestions(questions, answers)
    ensures |AnswersForQuestion(answers, q.id)| > 0
  {
    assert multiset(AnsweredQuestions(questions, answers))[q] > 0;
    HasAnswerIffCounted(answers, q.id);
  }

  /** groupedByTopic: the filtered questions by topic; each group holds exactly
      its topic's shown questions, and the groups together hold them all. */
  method GroupedByTopic(questions: seq<Question>, answers: seq<Answer>, searchTerm: string, selectedTopic: string)
    returns (groups: map<string, seq<Question>>)
    ensures forall q :: q in FilteredQuestions(questions, answers, searchTerm, selectedTopic) ==> q.topic in groups
    ensures forall t :: t in groups ==>
      |groups[t]| > 0 && IsSubsequence(groups[t], FilteredQuestions(questions, answers, searchTerm, selectedTopic)) &&
      forall q :: multiset(groups[t])[q] ==
                  if q.topic == t && HasAnswer(answers, q.id) && MatchesSearch(searchTerm, q) && MatchesTopic(selectedTopic, q)
                  then multiset(questions)[q] else 0
  {
    var shown := FilteredQuestions(questions, answers, searchTerm, selectedTopic);
    groups := GroupBy(shown, TopicOf);
    GroupedIsPartition(shown, TopicOf);
  }
}
