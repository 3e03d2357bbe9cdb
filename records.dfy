/** The four row kinds of the remote store and the drafts the client sends to
    create them. Identifiers are the store's strings; `created_at` is modelled
    as the milliseconds that `new Date(created_at).getTime()` yields. */
module Records {

  datatype Option<T> = None | Some(value: T)

  datatype HREntry = HREntry(
    id: string, daName: string, companyName: string, hrName: string, hrContact: string, createdAt: int)

  datatype Question = Question(
    id: string, text: string, topic: string, askedBy: string, createdAt: int)

  datatype Answer = Answer(
    id: string, questionId: string, answerText: string, answeredBy: string, createdAt: int)

  datatype Job = Job(
    id: string, daName: string, companyName: string, phoneNumber: Option<string>,
    jobLink: string, fileName: Option<string>, createdAt: int)

  /** A row as the client assembles it, before the store adds `id` and `created_at`. */
  datatype HREntryDraft = HREntryDraft(daName: string, companyName: string, hrName: string, hrContact: string)

  /** `asked_by` is left out (None) by the HR form's question inserts. */
  datatype QuestionDraft = QuestionDraft(text: string, topic: string, askedBy: Option<string>)

  datatype AnswerDraft = AnswerDraft(questionId: string, answerText: string, answeredBy: string)

  /** An optional field of a JavaScript object: missing, `null`, or a string. */
  datatype Nullable = Missing | Null | Present(value: string)

  datatype JobDraft = JobDraft(
    daName: string, companyName: string, phoneNumber: Nullable, jobLink: string, fileName: Nullable)

  /** The job record actually sent, with an explicit null for an absent optional field. */
  datatype JobInsert = JobInsert(
    daName: string, companyName: string, jobLink: string, phoneNumber: Option<string>, fileName: Option<string>)
}
