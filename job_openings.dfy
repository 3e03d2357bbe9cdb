/** The Job Openings page: the form that posts a job and the ten latest jobs. */
module JobOpenings {
  import opened Records
  import opened Remote
  import opened AppContext
  import opened Seqs
  import opened Sorting

  /** The five text inputs of the form. */
  datatype JobForm = JobForm(daName: string, companyName: string, phoneNumber: string, jobLink: string, fileName: string)

  const EmptyJobForm := JobForm("", "", "", "", "")

  /** The submit guard: DA name, job link and company name are non-empty. */
  predicate CanPost(f: JobForm)
  {
    f.daName != "" && f.jobLink != "" && f.companyName != ""
  }

  /** `value || null`: the empty string becomes null. */
  function EmptyToNull(s: string): (v: Nullable)
    ensures v != Missing
    ensures v == Null <==> s == ""
    ensures v.Present? ==> v.value == s
  {
    if s == "" then Null else Present(s)
  }

  /** The job the form hands to addJob. */
  function JobOf(f: JobForm): (job: JobDraft)
    ensures job.daName == f.daName && job.companyName == f.companyName && job.jobLink == f.jobLink
    ensures job.phoneNumber == EmptyToNull(f.phoneNumber) && job.fileName == EmptyToNull(f.fileName)
  {
    JobDraft(f.daName, f.companyName, EmptyToNull(f.phoneNumber), f.jobLink, EmptyToNull(f.fileName))
  }

  /** What reaches the store: an empty phone number or file name is sent as
      null and a non-empty one as typed; the other fields pass through. */
  lemma SentJobFields(f: JobForm)
    ensures var sent := JobToInsert(JobOf(f));
      && sent.daName == f.daName && sent.companyName == f.companyName && sent.jobLink == f.jobLink
      && (sent.phoneNumber.None? <==> f.phoneNumber == "")
      && (sent.phoneNumber.Some? ==> sent.phoneNumber.value == f.phoneNumber)
      && (sent.fileName.None? <==> f.fileName == "")
      && (sent.fileName.Some? ==> sent.fileName.value == f.fileName)
  {
  }

  /** recentJobs: the ten latest jobs (all of them when fewer), newest first;
      no job left out is newer than one shown. */
  function RecentJobs(jobs: seq<Job>): (recent: seq<Job>)
    ensures |recent| == Min(10, |jobs|)
    ensures SortedDesc(recent, CreatedAt)
    ensures multiset(recent) <= multiset(jobs)
    ensures forall x, y :: x in multiset(jobs) - multiset(recent) && y in recent ==> x.createdAt <= y.createdAt
  {
    Top(jobs, CreatedAt, 10)
  }

  function CreatedAt(j: Job): int
  {
    j.createdAt
  }

  class JobOpeningsPage {
    var showForm: bool
    var submitting: bool
    var formData: JobForm

    constructor ()
      ensures !showForm && !submitting && formData == EmptyJobForm
    {
      showForm, submitting, formData := false, false, EmptyJobForm;
    }

    /** handleSubmit: nothing happens unless the guard holds; otherwise the
        job is posted. Success resets and closes the form; failure keeps it.
        `submitting` ends false either way. */
    method HandleSubmit(app: AppProvider, reply: InsertReply<Job>)
      modifies this, app`jobs, app.store
      ensures !CanPost(old(formData)) ==>
        app.store.log == old(app.store.log) && app.jobs == old(app.jobs) &&
        formData == old(formData) && showForm == old(showForm) && submitting == old(submitting)
      ensures CanPost(old(formData)) ==>
        !submitting && app.store.log == old(app.store.log) + [InsertJob(JobToInsert(JobOf(old(formData))))]
      ensures CanPost(old(formData)) && reply.Inserted? ==>
        app.jobs == [reply.row] + old(app.jobs) && formData == EmptyJobForm && !showForm
      ensures CanPost(old(formData)) && reply.InsertError? ==>
        app.jobs == old(app.jobs) && formData == old(formData) && showForm == old(showForm)
    {
      if CanPost(formData) {
        submitting := true;
        var ok := app.AddJob(JobOf(formData), reply);
        if ok {
          formData, showForm := EmptyJobForm, false;
        }
        submitting := false;
      }
    }

    /** handleFileUpload: a chosen file sets only the file name; no file
        changes nothing. */
    method HandleFileUpload(file: Option<string>)
      modifies this`formData
      ensures file.None? ==> formData == old(formData)
      ensures file.Some? ==> formData == old(formData).(fileName := file.value)
    {
      if file.Some? {
        formData := formData.(fileName := file.value);
      }
    }
  }
}
