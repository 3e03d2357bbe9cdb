/** The Recent Questions page: every question grouped by topic, each with its
    answer count and status, and the modal in which an answer is written. */
module RecentQuestions {
  import opened Records
  import opened Remote
  import opened AppContext
  import opened Seqs
  import opened Tally
  import opened Text

  function TopicOf(q: Question): string
  {
    q.topic
  }

  function QuestionIdOf(a: Answer): string
  {
    a.questionId
  }

  /** groupedQuestions: one group per topic that occurs; each group holds
      exactly that topic's questions, in the cache's order, and together the
      groups hold every question once. */
  method GroupedQuestions(questions: seq<Question>) returns (groups: map<string, seq<Question>>)
    ensures forall q :: q in questions ==> q.topic in groups
    ensures forall t :: t in groups ==>
      |groups[t]| > 0 && IsSubsequence(groups[t], questions) &&
      forall q :: multiset(groups[t])[q] == if q.topic == t then multiset(questions)[q] else 0
    ensures Total(Sizes(groups), Distinct(Project(questions, TopicOf))) == |questions|
  {
    groups := GroupBy(questions, TopicOf);
    GroupedIsPartition(questions, TopicOf);
    GroupSizesTotal(questions, TopicOf);
  }

  /** getAnswerCount: how many cached answers name the question. */
  function AnswerCount(answers: seq<Answer>, questionId: string): (n: nat)
    ensures n == multiset(Project(answers, QuestionIdOf))[questionId]
    ensures n <= |answers|
  {
    WithKeyIsGroup(answers, QuestionIdOf, questionId);
    |WithKey(answers, QuestionIdOf, questionId)|
  }

  datatype AnswerStatus = Answered | Pending

  /** The badge: Answered once the question has an answer, Pending before;
      that is, Answered exactly when some cached answer names it. */
  function Status(answers: seq<Answer>, questionId: string): (status: AnswerStatus)
    ensures status == Answered <==> exists a :: a in answers && a.questionId == questionId
  {
    CountedIffNamed(answers, questionId);
    if AnswerCount(answers, questionId) > 0 then Answered else Pending
  }

  /** A question's answer count is positive exactly when some cached answer
      names it. */
  lemma CountedIffNamed(answers: seq<Answer>, questionId: string)
    ensures AnswerCount(answers, questionId) > 0 <==> exists a :: a in answers && a.questionId == questionId
  {
    var ids := Project(answers, QuestionIdOf);
    if a :| a in answers && a.questionId == questionId {
      var i :| 0 <= i < |answers| && answers[i] == a;
      assert ids[i] == questionId;
    }
    if questionId in ids {
      var i :| 0 <= i < |ids| && ids[i] == questionId;
      assert answers[i] in answers;
    }
  }

  /** addAnswer puts the new answer at the front of the cache: the count of
      its question goes up by one and that question becomes Answered; every
      other question's count stays as it was. */
  lemma AddedAnswerCounts(answers: seq<Answer>, a: Answer, questionId: string)
    ensures AnswerCount([a] + answers, questionId) == AnswerCount(answers, questionId) + (if a.questionId == questionId then 1 else 0)
    ensures a.questionId == questionId ==> Status([a] + answers, questionId) == Answered
  {
    ProjectConcat([a], answers, QuestionIdOf);
    assert Project([a], QuestionIdOf) == [a.questionId];
  }

  /** The guard of handleSubmitAnswer: a question is selected, and neither the
      answer nor the name trims to the empty string, that is (by
      `TrimEmptyIffBlank`) neither is blank. */
  predicate CanSubmitAnswer(selected: Option<string>, answerText: string, answeredBy: string)
  {
    selected.Some? && selected.value != "" && !IsBlank(answerText) && !IsBlank(answeredBy)
  }

  /** The answer handleSubmitAnswer sends: text and name trimmed. */
  function SubmittedAnswer(questionId: string, answerText: string, answeredBy: string): AnswerDraft
  {
    AnswerDraft(questionId, Trim(answerText), Trim(answeredBy))
  }

  /** The state of the answer modal. */
  class AnswerBoard {
    var selectedQuestion: Option<string>
    var answerText: string
    var answeredBy: string
    var submitting: bool

    constructor ()
      ensures selectedQuestion == None && answerText == "" && answeredBy == "" && !submitting
    {
      selectedQuestion, answerText, answeredBy, submitting := None, "", "", false;
    }

    /** "Give Answer" opens the modal for the question. */
    method GiveAnswer(questionId: string)
      modifies this`selectedQuestion
      ensures selectedQuestion == Some(questionId)
    {
      selectedQuestion := Some(questionId);
    }

    /** "Cancel" closes the modal and clears both fields. */
    method Cancel()
      modifies this`selectedQuestion, this`answerText, this`answeredBy
      ensures selectedQuestion == None && answerText == "" && answeredBy == ""
    {
      selectedQuestion, answerText, answeredBy := None, "", "";
    }

    /** handleSubmitAnswer: nothing happens unless the guard holds; otherwise
        the trimmed answer is inserted for the selected question. Success
        closes and clears the modal; failure keeps what was typed. Either way
        `submitting` ends false. */
    method HandleSubmitAnswer(app: AppProvider, reply: InsertReply<Answer>)
      modifies this, app`answers, app.store
      ensures !CanSubmitAnswer(old(selectedQuestion), old(answerText), old(answeredBy)) ==>
        selectedQuestion == old(selectedQuestion) && answerText == old(answerText) &&
        answeredBy == old(answeredBy) && submitting == old(submitting) &&
        app.answers == old(app.answers) && app.store.log == old(app.store.log)
      ensures CanSubmitAnswer(old(selectedQuestion), old(answerText), old(answeredBy)) ==>
        !submitting &&
        app.store.log == old(app.store.log) +
          [InsertAnswer(SubmittedAnswer(old(selectedQuestion).value, old(answerText), old(answeredBy)))]
      ensures CanSubmitAnswer(old(selectedQuestion), old(answerText), old(answeredBy)) && reply.Inserted? ==>
        app.answers == [reply.row] + old(app.answers) &&
        selectedQuestion == None && answerText == "" && answeredBy == ""
      ensures CanSubmitAnswer(old(selectedQuestion), old(answerText), old(answeredBy)) && reply.InsertError? ==>
        app.answers == old(app.answers) && selectedQuestion == old(selectedQuestion) &&
        answerText == old(answerText) && answeredBy == old(answeredBy)
    {
      if !CanSubmitAnswer(selectedQuestion, answerText, answeredBy) {
        return;
      }
      submitting := true;
      var draft := SubmittedAnswer(selectedQuestion.value, answerText, answeredBy);
      var ok := app.AddAnswer(draft, reply);
      if ok {
        selectedQuestion, answerText, answeredBy := None, "", "";
      }
      submitting := false;
    }
  }
}
