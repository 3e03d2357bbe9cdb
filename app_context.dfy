/** AppProvider: the one cache of the four collections that every page reads,
    with the `loading` flag, the four fetches, `refreshData` and the four
    inserts. A thrown insert error is the `false` result of an Add method. */
module AppContext {
  import opened Records
  import opened Remote
  import opened Seqs

  /** The collection after a fetch: the fetched rows (`data || []`) on
      success, the previous contents on error. */
  function AfterFetch<T>(current: seq<T>, reply: FetchReply<T>): seq<T>
  {
    match reply
    case FetchError(_) => current
    case Rows(None) => []
    case Rows(Some(rows)) => rows
  }

  /** Fetching the same reply twice leaves what fetching it once left. */
  lemma AfterFetchIdempotent<T>(current: seq<T>, reply: FetchReply<T>)
    ensures AfterFetch(AfterFetch(current, reply), reply) == AfterFetch(current, reply)
  {
  }

  /** `x ?? null`: a missing or null optional field becomes null; a string,
      even the empty one, is kept. */
  function OrNull(f: Nullable): (r: Option<string>)
    ensures r.None? <==> !f.Present?
    ensures f.Present? ==> r == Some(f.value)
  {
    if f.Present? then Some(f.value) else None
  }

  /** The record addJob sends for a job: the three required fields copied, the
      two optional ones made explicit. */
  function JobToInsert(job: JobDraft): (r: JobInsert)
    ensures r.daName == job.daName && r.companyName == job.companyName && r.jobLink == job.jobLink
    ensures r.phoneNumber == OrNull(job.phoneNumber) && r.fileName == OrNull(job.fileName)
  {
    JobInsert(job.daName, job.companyName, job.jobLink, OrNull(job.phoneNumber), OrNull(job.fileName))
  }

  class AppProvider {
    const store: RemoteStore
    var hrEntries: seq<HREntry>
    var questions: seq<Question>
    var answers: seq<Answer>
    var jobs: seq<Job>
    var loading: bool

    /** The provider mounts with four empty collections, still loading. */
    constructor (store: RemoteStore)
      ensures this.store == store
      ensures hrEntries == [] && questions == [] && answers == [] && jobs == []
      ensures loading
    {
      this.store := store;
      hrEntries, questions, answers, jobs := [], [], [], [];
      loading := true;
    }

    method FetchHREntries(reply: FetchReply<HREntry>)
      modifies this`hrEntries, store
      ensures store.log == old(store.log) + [SelectAll(HREntries)]
      ensures hrEntries == AfterFetch(old(hrEntries), reply)
    {
      store.Send(SelectAll(HREntries));
      if reply.Rows? {
        hrEntries := if reply.data.Some? then reply.data.value else [];
      }
    }

    method FetchQuestions(reply: FetchReply<Question>)
      modifies this`questions, store
      ensures store.log == old(store.log) + [SelectAll(Questions)]
      ensures questions == AfterFetch(old(questions), reply)
    {
      store.Send(SelectAll(Questions));
      if reply.Rows? {
        questions := if reply.data.Some? then reply.data.value else [];
      }
    }

    method FetchAnswers(reply: FetchReply<Answer>)
      modifies this`answers, store
      ensures store.log == old(store.log) + [SelectAll(Answers)]
      ensures answers == AfterFetch(old(answers), reply)
    {
      store.Send(SelectAll(Answers));
      if reply.Rows? {
        answers := if reply.data.Some? then reply.data.value else [];
      }
    }

    method FetchJobs(reply: FetchReply<Job>)
      modifies this`jobs, store
      ensures store.log == old(store.log) + [SelectAll(Jobs)]
      ensures jobs == AfterFetch(old(jobs), reply)
    {
      store.Send(SelectAll(Jobs));
      if reply.Rows? {
        jobs := if reply.data.Some? then reply.data.value else [];
      }
    }

    /** Sets `loading`, runs the four fetches (each settles on its own; one
        failing does not stop the others) and clears `loading`. */
    method RefreshData(hrReply: FetchReply<HREntry>, questionReply: FetchReply<Question>, answerReply: FetchReply<Answer>, jobReply: FetchReply<Job>)
      modifies this, store
      ensures store.log == old(store.log) + [SelectAll(HREntries), SelectAll(Questions), SelectAll(Answers), SelectAll(Jobs)]
      ensures hrEntries == AfterFetch(old(hrEntries), hrReply)
      ensures questions == AfterFetch(old(questions), questionReply)
      ensures answers == AfterFetch(old(answers), answerReply)
      ensures jobs == AfterFetch(old(jobs), jobReply)
      ensures !loading
    {
      loading := true;
      FetchHREntries(hrReply);
      FetchQuestions(questionReply);
      FetchAnswers(answerReply);
      FetchJobs(jobReply);
      loading := false;
    }

    /** Inserts an HR entry; on success the stored row goes to the front. */
    method AddHREntry(entry: HREntryDraft, reply: InsertReply<HREntry>) returns (ok: bool)
      modifies this`hrEntries, store
      ensures ok <==> reply.Inserted?
      ensures store.log == old(store.log) + [InsertHREntry(entry)]
      ensures hrEntries == if ok then [reply.row] + old(hrEntries) else old(hrEntries)
      ensures questions == old(questions) && answers == old(answers) && jobs == old(jobs) && loading == old(loading)
    {
      store.Send(InsertHREntry(entry));
      ok := reply.Inserted?;
      if ok {
        hrEntries := [reply.row] + hrEntries;
      }
    }

    method AddQuestion(question: QuestionDraft, reply: InsertReply<Question>) returns (ok: bool)
      modifies this`questions, store
      ensures ok <==> reply.Inserted?
      ensures store.log == old(store.log) + [InsertQuestion(question)]
      ensures questions == if ok then [reply.row] + old(questions) else old(questions)
      ensures hrEntries == old(hrEntries) && answers == old(answers) && jobs == old(jobs) && loading == old(loading)
    {
      store.Send(InsertQuestion(question));
      ok := reply.Inserted?;
      if ok {
        questions := [reply.row] + questions;
      }
    }

    method AddAnswer(answer: AnswerDraft, reply: InsertReply<Answer>) returns (ok: bool)
      modifies this`answers, store
      ensures ok <==> reply.Inserted?
      ensures store.log == old(store.log) + [InsertAnswer(answer)]
      ensures answers == if ok then [reply.row] + old(answers) else old(answers)
      ensures hrEntries == old(hrEntries) && questions == old(questions) && jobs == old(jobs) && loading == old(loading)
    {
      store.Send(InsertAnswer(answer));
      ok := reply.Inserted?;
      if ok {
        answers := [reply.row] + answers;
      }
    }

    /** Normalises the optional fields, then inserts the job. */
    method AddJob(job: JobDraft, reply: InsertReply<Job>) returns (ok: bool)
      modifies this`jobs, store
      ensures ok <==> reply.Inserted?
      ensures store.log == old(store.log) + [InsertJob(JobToInsert(job))]
      ensures jobs == if ok then [reply.row] + old(jobs) else old(jobs)
      ensures hrEntries == old(hrEntries) && questions == old(questions) && answers == old(answers) && loading == old(loading)
    {
      var jobToInsert := JobToInsert(job);
      store.Send(InsertJob(jobToInsert));
      ok := reply.Inserted?;
      if ok {
        jobs := [reply.row] + jobs;
      }
    }
  }

  /** One more successful insert puts its row in front of the earlier ones. */
  lemma NewestRowFirst<T>(replyTo: nat -> InsertReply<T>, k: nat, older: seq<T>)
    requires replyTo(k).Inserted?
    ensures Reverse(RowsOf(replyTo, k + 1)) + older == [replyTo(k).row] + (Reverse(RowsOf(replyTo, k)) + older)
  {
    ReverseSnoc(RowsOf(replyTo, k), replyTo(k).row);
  }

  /** `for (...) await addQuestion(draft)` as both question forms run it:
      the drafts are inserted one after the other and the first failure
      ends the run, so `k` leading inserts succeed and the failing one is
      the last request sent. The successful rows end up in front of the
      cache, newest first. `replyTo(i)` answers the i-th insert. */
  method AddQuestionsInOrder(app: AppProvider, drafts: seq<QuestionDraft>, replyTo: nat -> InsertReply<Question>)
    returns (k: nat)
    modifies app`questions, app.store
    ensures k == LeadingSuccesses(replyTo, |drafts|)
    ensures app.store.log == old(app.store.log) + InsertQuestions(drafts[..Attempted(|drafts|, k)])
    ensures app.questions == Reverse(RowsOf(replyTo, k)) + old(app.questions)
  {
    ghost var log0, questions0 := app.store.log, app.questions;
    k := 0;
    while k < |drafts|
      invariant k <= LeadingSuccesses(replyTo, |drafts|)
      invariant app.questions == Reverse(RowsOf(replyTo, k)) + questions0
      invariant app.store.log == log0 + InsertQuestions(drafts[..k])
    {
      var ok := app.AddQuestion(drafts[k], replyTo(k));
      InsertQuestionsSnoc(log0, drafts, k);
      LeadingSuccessesStep(replyTo, |drafts|, k);
      if !ok {
        return;
      }
      NewestRowFirst(replyTo, k, questions0);
      k := k + 1;
    }
  }

}
