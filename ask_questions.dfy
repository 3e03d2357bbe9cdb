/** The Ask Questions page: a list of question fields that can grow, shrink
    and be edited, submitted under one topic and one name. */
module AskQuestions {
  import opened Records
  import opened Remote
  import opened AppContext
  import opened Seqs
  import opened Tally
  import opened Text

  /** A field of the form; its id is the clock reading when it was added. */
  datatype QuestionField = QuestionField(id: int, text: string)

  function IdOf(f: QuestionField): int
  {
    f.id
  }

  /** No two fields share an id. */
  predicate DistinctIds(fields: seq<QuestionField>)
  {
    NoDuplicates(Project(fields, IdOf))
  }

  /** removeQuestionField: with more than one field, every field with the id
      is dropped and the others kept in order; a lone field stays. */
  function RemoveField(fields: seq<QuestionField>, id: int): (r: seq<QuestionField>)
    ensures |fields| <= 1 ==> r == fields
    ensures |fields| > 1 ==> IsSubsequence(r, fields)
    ensures |fields| > 1 ==> forall f :: multiset(r)[f] == if f.id == id then 0 else multiset(fields)[f]
  {
    if |fields| > 1 then
      var keep := (f: QuestionField) => f.id != id;
      FilterIsSubsequence(fields, keep);
      FilterCount(fields, keep);
      Filter(fields, keep)
    else fields
  }

  /** With distinct ids the list is never emptied by a removal. */
  lemma RemoveKeepsAField(fields: seq<QuestionField>, id: int)
    requires fields != [] && DistinctIds(fields)
    ensures RemoveField(fields, id) != []
  {
    if |fields| > 1 {
      var ids := Project(fields, IdOf);
      var f := if fields[0].id != id then fields[0] else fields[1];
      assert ids[0] != ids[1];
      assert f in fields && f.id != id;
      assert multiset(RemoveField(fields, id))[f] > 0;
    }
  }

  /** Two fields added within the same millisecond share an id; removing
      either then removes both and leaves no field at all. */
  lemma SharedIdEmptiesTheList()
    ensures RemoveField([QuestionField(7, ""), QuestionField(7, "")], 7) == []
  {
    var fields := [QuestionField(7, ""), QuestionField(7, "")];
    var r := RemoveField(fields, 7);
  }

  /** The removal the length guard is there for: the form never loses its
      last field. It agrees with `RemoveField` whenever the ids are distinct,
      and where `RemoveField` would empty the list it leaves the list as it
      is. */
  function RemoveFieldKeepingOne(fields: seq<QuestionField>, id: int): (r: seq<QuestionField>)
    ensures fields != [] ==> r != []
    ensures r == RemoveField(fields, id) || (r == fields && RemoveField(fields, id) == [])
    ensures DistinctIds(fields) ==> r == RemoveField(fields, id)
  {
    var removed := RemoveField(fields, id);
    if fields != [] && DistinctIds(fields) then
      RemoveKeepsAField(fields, id);
      removed
    else if removed == [] then fields
    else removed
  }

  /** updateQuestion: the fields with the id get the new text; ids, length
      and every other field stay. */
  function UpdateField(fields: seq<QuestionField>, id: int, text: string): (r: seq<QuestionField>)
    ensures |r| == |fields|
    ensures forall i :: 0 <= i < |fields| ==> r[i].id == fields[i].id
    ensures forall i :: 0 <= i < |fields| ==> r[i].text == if fields[i].id == id then text else fields[i].text
  {
    if fields == [] then []
    else [if fields[0].id == id then QuestionField(id, text) else fields[0]] + UpdateField(fields[1..], id, text)
  }

  /** Editing keeps the ids, so it keeps them distinct. */
  lemma UpdateKeepsIds(fields: seq<QuestionField>, id: int, text: string)
    ensures Project(UpdateField(fields, id, text), IdOf) == Project(fields, IdOf)
  {
    var r := UpdateField(fields, id, text);
    assert forall i :: 0 <= i < |r| ==> Project(r, IdOf)[i] == Project(fields, IdOf)[i];
  }

  /** The field's text is not blank, so `text.trim()` is truthy. */
  predicate Filled(f: QuestionField)
  {
    !IsBlank(f.text)
  }

  /** The inserts the submit issues: one per filled field, in order, with the
      trimmed text, the topic and the trimmed name. */
  function QuestionDrafts(fields: seq<QuestionField>, topic: string, askedBy: string): (drafts: seq<QuestionDraft>)
    ensures |drafts| <= |fields|
    ensures forall i :: 0 <= i < |drafts| ==> drafts[i].text != "" && drafts[i].topic == topic && drafts[i].askedBy == Some(Trim(askedBy))
    ensures forall i :: 0 <= i < |drafts| ==> exists f :: f in fields && Filled(f) && drafts[i].text == Trim(f.text)
  {
    var filled := Filter(fields, Filled);
    var drafts := Project(filled, (f: QuestionField) => QuestionDraft(Trim(f.text), topic, Some(Trim(askedBy))));
    FilledTextsTrimmed(fields, filled, drafts);
    drafts
  }

  /** Drafts made from the filled fields carry trimmed texts that are not
      empty, each taken from a filled field. */
  lemma FilledTextsTrimmed(fields: seq<QuestionField>, filled: seq<QuestionField>, drafts: seq<QuestionDraft>)
    requires filled == Filter(fields, Filled)
    requires |drafts| == |filled| && forall i :: 0 <= i < |drafts| ==> drafts[i].text == Trim(filled[i].text)
    ensures forall i :: 0 <= i < |drafts| ==> drafts[i].text != ""
    ensures forall i :: 0 <= i < |drafts| ==> exists f :: f in fields && Filled(f) && drafts[i].text == Trim(f.text)
  {
    FilterCount(fields, Filled);
    forall i | 0 <= i < |drafts|
      ensures drafts[i].text != ""
      ensures exists f :: f in fields && Filled(f) && drafts[i].text == Trim(f.text)
    {
      TrimEmptyIffBlank(filled[i].text);
      assert filled[i] in filled;
    }
  }

  /** A further field adds its insert at the end when filled and nothing when
      blank. */
  lemma QuestionDraftsSnoc(fields: seq<QuestionField>, f: QuestionField, topic: string, askedBy: string)
    ensures QuestionDrafts(fields + [f], topic, askedBy) ==
      QuestionDrafts(fields, topic, askedBy) + (if Filled(f) then [QuestionDraft(Trim(f.text), topic, Some(Trim(askedBy)))] else [])
  {
    FilterSnoc(fields, f, Filled);
    var toDraft := (g: QuestionField) => QuestionDraft(Trim(g.text), topic, Some(Trim(askedBy)));
    if Filled(f) {
      ProjectConcat(Filter(fields, Filled), [f], toDraft);
    }
  }

  /** There is something to insert exactly when some field is filled. */
  lemma QuestionDraftsNonEmpty(fields: seq<QuestionField>, topic: string, askedBy: string)
    ensures QuestionDrafts(fields, topic, askedBy) != [] <==> exists f :: f in fields && Filled(f)
  {
    FilterCount(fields, Filled);
    var filled := Filter(fields, Filled);
    if filled != [] {
      assert filled[0] in filled;
    }
  }

  /** The submit guard: a topic, a name (untrimmed) and a filled field. */
  predicate CanSubmitQuestions(selectedTopic: string, askedBy: string, fields: seq<QuestionField>)
  {
    selectedTopic != "" && askedBy != "" && exists f :: f in fields && Filled(f)
  }

  /** The guard tests the untrimmed name while the insert sends it trimmed: a
      name made only of white space is accepted and stored as the empty
      string. */
  lemma BlankNameStoredEmpty(f: QuestionField, topic: string, askedBy: string)
    requires topic != "" && askedBy != "" && IsBlank(askedBy) && Filled(f)
    ensures CanSubmitQuestions(topic, askedBy, [f])
    ensures QuestionDrafts([f], topic, askedBy) == [QuestionDraft(Trim(f.text), topic, Some(""))]
  {
    assert f in [f];
    assert QuestionDrafts([], topic, askedBy) == [];
    QuestionDraftsSnoc([], f, topic, askedBy);
    assert [] + [f] == [f];
    TrimEmptyIffBlank(askedBy);
  }

  class AskQuestionsForm {
    var selectedTopic: string
    var fields: seq<QuestionField>
    var askedBy: string

    /** The form starts with one empty field. */
    constructor (id: int)
      ensures fields == [QuestionField(id, "")] && selectedTopic == "" && askedBy == ""
    {
      fields, selectedTopic, askedBy := [QuestionField(id, "")], "", "";
    }

    /** addQuestionField: one more empty field at the end. */
    method AddQuestionField(id: int)
      modifies this`fields
      ensures fields == old(fields) + [QuestionField(id, "")]
    {
      fields := fields + [QuestionField(id, "")];
    }

    /** removeQuestionField, as written: the guarded filter. */
    method RemoveQuestionField(id: int)
      modifies this`fields
      ensures fields == RemoveField(old(fields), id)
    {
      fields := RemoveField(fields, id);
    }

    method UpdateQuestion(id: int, text: string)
      modifies this`fields
      ensures fields == UpdateField(old(fields), id, text)
    {
      fields := UpdateField(fields, id, text);
    }

    /** handleSubmit: nothing happens unless the guard holds; otherwise each
        filled field is inserted in order until one fails. Only when all
        succeed is the form reset to one empty field (id `resetId`) with
        topic and name cleared; inserts made before a failure stay. */
    method HandleSubmit(app: AppProvider, replyTo: nat -> InsertReply<Question>, resetId: int)
      modifies this, app`questions, app.store
      ensures !CanSubmitQuestions(old(selectedTopic), old(askedBy), old(fields)) ==>
        app.store.log == old(app.store.log) && app.questions == old(app.questions) &&
        fields == old(fields) && selectedTopic == old(selectedTopic) && askedBy == old(askedBy)
      ensures CanSubmitQuestions(old(selectedTopic), old(askedBy), old(fields)) ==>
        var drafts := QuestionDrafts(old(fields), old(selectedTopic), old(askedBy));
        var k := LeadingSuccesses(replyTo, |drafts|);
        app.store.log == old(app.store.log) + InsertQuestions(drafts[..Attempted(|drafts|, k)]) &&
        app.questions == Reverse(RowsOf(replyTo, k)) + old(app.questions) &&
        (k == |drafts| ==> fields == [QuestionField(resetId, "")] && selectedTopic == "" && askedBy == "") &&
        (k < |drafts| ==> fields == old(fields) && selectedTopic == old(selectedTopic) && askedBy == old(askedBy))
    {
      if CanSubmitQuestions(selectedTopic, askedBy, fields) {
        var drafts := QuestionDrafts(fields, selectedTopic, askedBy);
        var k := AddQuestionsInOrder(app, drafts, replyTo);
        if k == |drafts| {
          fields, selectedTopic, askedBy := [QuestionField(resetId, "")], "", "";
        }
      }
    }
  }
}
