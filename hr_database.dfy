/** The HR Database page: the searchable list of HR entries, and the form that
    adds an entry together with the interview questions asked by that company. */
module HRDatabase {
  import opened Records
  import opened Remote
  import opened AppContext
  import opened Seqs
  import opened Text

  /** The search: company or HR name contains the term ignoring case, or the
      contact contains it exactly. */
  predicate MatchesEntry(searchTerm: string, e: HREntry)
  {
    MatchesIgnoringCase(e.companyName, searchTerm) ||
    MatchesIgnoringCase(e.hrName, searchTerm) ||
    Includes(e.hrContact, searchTerm)
  }

  /** filteredEntries: the matching entries, each as often as in the cache,
      in the cache's order. */
  function FilteredEntries(entries: seq<HREntry>, searchTerm: string): (r: seq<HREntry>)
    ensures IsSubsequence(r, entries)
    ensures forall e :: multiset(r)[e] == if MatchesEntry(searchTerm, e) then multiset(entries)[e] else 0
  {
    var matches := (e: HREntry) => MatchesEntry(searchTerm, e);
    FilterIsSubsequence(entries, matches);
    FilterCount(entries, matches);
    Filter(entries, matches)
  }

  /** An empty search keeps every entry. */
  lemma EmptySearchKeepsAllEntries(entries: seq<HREntry>)
    ensures FilteredEntries(entries, "") == entries
  {
    var matches := (e: HREntry) => MatchesEntry("", e);
    forall e | e in entries ensures matches(e) {
      EmptyTermMatches(e.companyName);
    }
    FilterAll(entries, matches);
  }

  /** The four fields of the form. */
  datatype HRForm = HRForm(daName: string, companyName: string, hrName: string, hrContact: string)

  const EmptyForm := HRForm("", "", "", "")

  /** The submit guard: every field is non-empty (untrimmed). */
  predicate Complete(f: HRForm)
  {
    f.daName != "" && f.companyName != "" && f.hrName != "" && f.hrContact != ""
  }

  function EntryDraft(f: HRForm): HREntryDraft
  {
    HREntryDraft(f.daName, f.companyName, f.hrName, f.hrContact)
  }

  /** The question rows the form inserts: the listed texts, filed under the
      company's name as topic, without an asker. */
  function CompanyQuestions(texts: seq<string>, companyName: string): (drafts: seq<QuestionDraft>)
    ensures |drafts| == |texts|
    ensures forall i :: 0 <= i < |texts| ==> drafts[i] == QuestionDraft(texts[i], companyName, None)
  {
    seq(|texts|, i requires 0 <= i < |texts| => QuestionDraft(texts[i], companyName, None))
  }

  class HRDatabasePage {
    var showForm: bool
    var formData: HRForm
    var questionsList: seq<string>
    var currentQuestion: string

    constructor ()
      ensures !showForm && formData == EmptyForm && questionsList == [] && currentQuestion == ""
    {
      showForm, formData, questionsList, currentQuestion := false, EmptyForm, [], "";
    }

    /** handleAddQuestion: a question that is not blank is appended trimmed
        and the input cleared; a blank one changes nothing. */
    method HandleAddQuestion()
      modifies this`questionsList, this`currentQuestion
      ensures IsBlank(old(currentQuestion)) ==>
        questionsList == old(questionsList) && currentQuestion == old(currentQuestion)
      ensures !IsBlank(old(currentQuestion)) ==>
        questionsList == old(questionsList) + [Trim(old(currentQuestion))] && currentQuestion == ""
    {
      TrimEmptyIffBlank(currentQuestion);
      var text := Trim(currentQuestion);
      if text != "" {
        questionsList := questionsList + [text];
        currentQuestion := "";
      }
    }

    /** handleSubmit: with a complete form, inserts the HR entry and then each
        listed question in order, stopping at the first failure. Only when
        every insert succeeds is the form reset and closed; rows already
        inserted before a failure stay. `hrReply` answers the entry insert
        and `replyTo(i)` the insert of the i-th question. */
    method HandleSubmit(app: AppProvider, hrReply: InsertReply<HREntry>, replyTo: nat -> InsertReply<Question>)
      modifies this, app`hrEntries, app`questions, app.store
      ensures !Complete(old(formData)) ==>
        app.store.log == old(app.store.log) && app.hrEntries == old(app.hrEntries) && app.questions == old(app.questions)
      ensures Complete(old(formData)) && hrReply.InsertError? ==>
        app.store.log == old(app.store.log) + [InsertHREntry(EntryDraft(old(formData)))] &&
        app.hrEntries == old(app.hrEntries) && app.questions == old(app.questions)
      ensures Complete(old(formData)) && hrReply.Inserted? ==>
        var n := |old(questionsList)|;
        var k := LeadingSuccesses(replyTo, n);
        app.hrEntries == [hrReply.row] + old(app.hrEntries) &&
        app.store.log == old(app.store.log) + [InsertHREntry(EntryDraft(old(formData)))] +
          InsertQuestions(CompanyQuestions(old(questionsList)[..Attempted(n, k)], old(formData).companyName)) &&
        app.questions == Reverse(RowsOf(replyTo, k)) + old(app.questions)
      ensures Complete(old(formData)) && hrReply.Inserted? && LeadingSuccesses(replyTo, |old(questionsList)|) == |old(questionsList)| ==>
        formData == EmptyForm && questionsList == [] && currentQuestion == "" && !showForm
      ensures !(Complete(old(formData)) && hrReply.Inserted? && LeadingSuccesses(replyTo, |old(questionsList)|) == |old(questionsList)|) ==>
        formData == old(formData) && questionsList == old(questionsList) &&
        currentQuestion == old(currentQuestion) && showForm == old(showForm)
    {
      if !Complete(formData) {
        return;
      }
      var form, list := formData, questionsList;
      var added := app.AddHREntry(EntryDraft(form), hrReply);
      if !added {
        return;
      }
      var k := AddQuestionsInOrder(app, CompanyQuestions(list, form.companyName), replyTo);
      assert CompanyQuestions(list, form.companyName)[..Attempted(|list|, k)] ==
        CompanyQuestions(list[..Attempted(|list|, k)], form.companyName);
      if k == |list| {
        formData, questionsList, currentQuestion, showForm := EmptyForm, [], "", false;
      }
    }
  }
}
