/** The hosted store, seen from the client. It is an oracle: the reply to each
    request is an input of the operation that sends it. What the client sends
    is kept in the store's request log, in order. */
module Remote {
  import opened Records

  datatype Table = HREntries | Questions | Answers | Jobs

  datatype Request =
    | SelectAll(table: Table)          // select('*').order('created_at', { ascending: false })
    | InsertHREntry(entry: HREntryDraft)
    | InsertQuestion(question: QuestionDraft)
    | InsertAnswer(answer: AnswerDraft)
    | InsertJob(job: JobInsert)

  /** `{ data, error }` of a select: rows (possibly `null`) or an error. */
  datatype FetchReply<T> = Rows(data: Option<seq<T>>) | FetchError(message: string)

  /** `{ data, error }` of `insert(...).select().single()`: the stored row or an error. */
  datatype InsertReply<T> = Inserted(row: T) | InsertError(message: string)

  class RemoteStore {
    var log: seq<Request>

    constructor ()
      ensures log == []
    {
      log := [];
    }

    method Send(r: Request)
      modifies this
      ensures log == old(log) + [r]
    {
      log := log + [r];
    }
  }

  /** How many of the first `n` replies succeed before the first failure. */
  function LeadingSuccesses<T>(replyTo: nat -> InsertReply<T>, n: nat): (k: nat)
    ensures k <= n
    ensures forall j :: 0 <= j < k ==> replyTo(j).Inserted?
    ensures k < n ==> replyTo(k).InsertError?
  {
    if n == 0 then 0
    else
      var k := LeadingSuccesses(replyTo, n - 1);
      if k == n - 1 && replyTo(n - 1).Inserted? then n else k
  }

  /** The rows returned by the successful replies among the first `n`. */
  function RowsOf<T>(replyTo: nat -> InsertReply<T>, n: nat): (rows: seq<T>)
    ensures |rows| <= n
    ensures (forall j :: 0 <= j < n ==> replyTo(j).Inserted?) ==> |rows| == n
  {
    if n == 0 then []
    else RowsOf(replyTo, n - 1) + (if replyTo(n - 1).Inserted? then [replyTo(n - 1).row] else [])
  }

  /** The requests that insert `drafts`, one after the other. */
  function InsertQuestions(drafts: seq<QuestionDraft>): (requests: seq<Request>)
    ensures |requests| == |drafts|
    ensures forall i :: 0 <= i < |drafts| ==> requests[i] == InsertQuestion(drafts[i])
  {
    seq(|drafts|, i requires 0 <= i < |drafts| => InsertQuestion(drafts[i]))
  }

  /** Inserting one more draft sends one more request, after those already
      in the log. */
  lemma InsertQuestionsSnoc(log: seq<Request>, drafts: seq<QuestionDraft>, k: nat)
    requires k < |drafts|
    ensures log + InsertQuestions(drafts[..k + 1]) == log + InsertQuestions(drafts[..k]) + [InsertQuestion(drafts[k])]
  {
    assert InsertQuestions(drafts[..k + 1]) == InsertQuestions(drafts[..k]) + [InsertQuestion(drafts[k])];
  }

  /** A run of inserts goes on past a success and stops at the first failure,
      which is the last request it sends. */
  lemma LeadingSuccessesStep<T>(replyTo: nat -> InsertReply<T>, n: nat, k: nat)
    requires k < n && k <= LeadingSuccesses(replyTo, n)
    ensures replyTo(k).Inserted? ==> k + 1 <= LeadingSuccesses(replyTo, n)
    ensures replyTo(k).InsertError? ==> LeadingSuccesses(replyTo, n) == k && Attempted(n, k) == k + 1
  {
  }

  /** The number of requests a run of `n` sequential inserts sends when the
      first `k` succeed: the failing one is sent too, and nothing after it. */
  function Attempted(n: nat, k: nat): nat
  {
    if k < n then k + 1 else n
  }
}
