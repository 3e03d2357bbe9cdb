# A model of the interview-preparation portal's client core

The portal is a browser client over a hosted table store. It keeps four
collections: HR entries, interview questions, answers and job openings. This
project models in Dafny:

- the shared cache `AppProvider`: its four collections, the `loading` flag,
  the fetches, `refreshData` and the four inserts;
- the derived views and forms that the pages build on it.

The pages are Recent Questions, Expert Answers, Dashboard, HR Database, Ask
Questions, Job Openings and Current Jobs. The navigation bar is modelled too.

The hosted store is an oracle. Every operation that talks to it takes the
store's reply as a parameter: a row or an error for an insert, rows or an
error for a fetch. A run of sequential inserts takes `replyTo(i)`, the reply
to its i-th insert. The store object (`Remote.RemoteStore`) keeps the log of
requests the client sent, in order. That lets each contract say exactly
which inserts a submission issues. A thrown insert error is the `false`
result of the cache's `Add*` methods.

The modules follow the program's structure:

- `Records`: the rows and the drafts the client sends.
- `Remote`: the store oracle.
- `AppContext`: the cache as a class whose methods change its fields.
- One module per page, plus `Navigation`. Form state lives in classes. The
  views are functions. Where the source builds a dictionary with `reduce` or
  `forEach`, the model has a method with a loop.
- Four shared modules:
  - `Seqs`: `filter` and the subsequence relation.
  - `Text`: `trim`, ASCII `toLowerCase`, `includes`, `startsWith`.
  - `Tally`: counting and grouping by key, proved against `Occurrences` and
    `Grouped`.
  - `Sorting`: a stable sort by a numeric key, largest first, then truncated.

Timestamps are integers (milliseconds). The seven-day window is
`now - createdAt <= 7 * 24 * 60 * 60 * 1000`.

## Model

| member | source | states |
|---|---|---|
| AppContext.AppProvider.constructor | src/context/AppContext.tsx:62-66 | The cache starts with four empty collections and `loading` set. |
| AppContext.AppProvider.FetchHREntries | src/context/AppContext.tsx:68-78 | One select is sent. On error the HR entries stay as they were. Null data empties them. Rows replace them. Nothing else changes. |
| AppContext.AppProvider.FetchQuestions | src/context/AppContext.tsx:80-90 | The same for the questions. |
| AppContext.AppProvider.FetchAnswers | src/context/AppContext.tsx:92-102 | The same for the answers. |
| AppContext.AppProvider.FetchJobs | src/context/AppContext.tsx:104-114 | The same for the jobs. |
| AppContext.AppProvider.RefreshData | src/context/AppContext.tsx:116-125 | Four selects are sent. Each collection takes its own fetch's outcome, independently of the others. `loading` ends false whatever the outcomes. |
| AppContext.AfterFetchIdempotent | src/context/AppContext.tsx:116-125 | Applying the same fetch outcome twice leaves what applying it once left, so a repeated refresh with the same replies is harmless. |
| AppContext.AppProvider.AddHREntry | src/context/AppContext.tsx:131-142 | Exactly one insert is sent. It succeeds iff the store returns a row, and that row goes to index 0 with the old collection after it. On error nothing changes. The other three collections and `loading` are untouched. |
| AppContext.AppProvider.AddQuestion | src/context/AppContext.tsx:144-155 | The same for a question. |
| AppContext.AppProvider.AddAnswer | src/context/AppContext.tsx:157-168 | The same for an answer. |
| AppContext.AppProvider.AddJob | src/context/AppContext.tsx:170-189 | The same for a job. The record sent is the normalised one from `JobToInsert`. |
| AppContext.OrNull | src/context/AppContext.tsx:175-176 | `?? null`: a missing or null field becomes null. A string is kept, even the empty string. |
| AppContext.JobToInsert | src/context/AppContext.tsx:171-177 | DA name, company and link are copied verbatim. Phone number and file name go through `OrNull`. |
| AppContext.AddQuestionsInOrder | src/pages/HRDatabase.tsx:41-46 | The loop of awaited question inserts used by the HR form and by Ask Questions (src/pages/AskQuestions.tsx:30-37). The drafts are sent in order and the first failure stops the run. `k` is the number of leading successes. The log gains exactly the first `k` inserts plus the failing one. The cache gains the `k` rows, newest first. |
| RecentQuestions.GroupedQuestions | src/pages/RecentQuestions.tsx:12-18 | Every question lies in the group of its own topic and in no other, with its full multiplicity. Groups keep the cache's order. No group is empty. The group sizes add up to the number of questions. |
| RecentQuestions.AnswerCount | src/pages/RecentQuestions.tsx:52-54 | The count is the number of answers whose question id is the given one. |
| RecentQuestions.CountedIffNamed | src/pages/RecentQuestions.tsx:52-54 | The answer count is positive iff some cached answer names the question. |
| RecentQuestions.Status | src/pages/RecentQuestions.tsx:97-102 | The badge reads Answered iff some cached answer names the question, otherwise Pending. |
| RecentQuestions.AddedAnswerCounts | src/context/AppContext.tsx:167 | A stored answer raises its own question's count by one and makes that question Answered. Other questions' counts do not move. |
| RecentQuestions.AnswerBoard.constructor | src/pages/RecentQuestions.tsx:6-9 | No selection, empty fields, not submitting. |
| RecentQuestions.AnswerBoard.GiveAnswer | src/pages/RecentQuestions.tsx:116 | "Give Answer" selects the question. |
| RecentQuestions.AnswerBoard.Cancel | src/pages/RecentQuestions.tsx:170-174 | Cancel clears the selection and both fields. |
| RecentQuestions.AnswerBoard.HandleSubmitAnswer | src/pages/RecentQuestions.tsx:29-50 | It is a no-op unless a question is selected and neither field is blank. Otherwise it sends one insert of the trimmed answer and name. Success clears the selection and fields. Failure keeps them. `submitting` ends false. |
| Text.Trim | src/pages/AskQuestions.tsx:31-35 | `trim()`: the result is no longer than the input and neither starts nor ends with ECMAScript white space. |
| Text.TrimIsSlice | src/pages/HRDatabase.tsx:28-29 | `trim()` leaves a slice of its input with only white space before and after it. |
| Text.Lower | src/pages/HRDatabase.tsx:20-24 | `toLowerCase()`: the same length, each character lowered on its own (ASCII letters only). |
| Text.Includes | src/pages/HRDatabase.tsx:20-24 | `includes(t)` holds iff `t` occurs in the text at some index. |
| Text.EmptyTermMatches | src/pages/ExpertAnswers.tsx:16 | The empty search term matches every text. |
| ExpertAnswers.HasAnswerIffCounted | src/pages/ExpertAnswers.tsx:11-13 | `some` answer names the question iff its answer count is positive iff the Recent Questions page shows it as Answered. |
| ExpertAnswers.AnsweredQuestions | src/pages/ExpertAnswers.tsx:11-13 | The result is a subsequence of the questions holding exactly those with an answer, each with its multiplicity. |
| ExpertAnswers.FilteredQuestions | src/pages/ExpertAnswers.tsx:15-19 | The result is a subsequence of the answered questions, and so of all questions. It holds exactly the answered questions whose text contains the term ignoring case and whose topic matches. The topic filters "" and "All" match everything. |
| ExpertAnswers.NoFilterShowsAllAnswered | src/pages/ExpertAnswers.tsx:16-17 | An empty term with topic "" or "All" shows every answered question. |
| ExpertAnswers.AnswersForQuestion | src/pages/ExpertAnswers.tsx:21-23 | Exactly the answers naming the question, in cache order, as many as its answer count. |
| ExpertAnswers.ShownQuestionsHaveAnswers | src/pages/ExpertAnswers.tsx:21-23 | Every listed question has at least one answer to show. |
| ExpertAnswers.GroupedByTopic | src/pages/ExpertAnswers.tsx:25-31 | This partitions the filtered questions by topic: each group is a non-empty subsequence holding exactly its topic's shown questions. |
| Dashboard.UnansweredCount | src/pages/Dashboard.tsx:17 | The card as written: it plus the number of answers is the number of questions, so it is negative exactly when there are more answers than questions. |
| Dashboard.UnansweredCountCanBeNegative | src/pages/Dashboard.tsx:17 | The card as written shows -1 for one question with two answers, while no question is unanswered. |
| Dashboard.PendingCount | src/pages/Dashboard.tsx:17 | The corrected count is never negative. Added to the number of answered questions, it gives the number of questions. |
| Dashboard.CountsAgreeWithoutAnswers | src/pages/Dashboard.tsx:17 | With no answers both counts equal the number of questions. |
| Dashboard.QuestionFrequency | src/pages/Dashboard.tsx:20-23 | Each distinct text maps to its number of occurrences. The counts add up to the number of questions. |
| Dashboard.Entries | src/pages/Dashboard.tsx:25-26 | `Object.entries(...).map(...)`: one entry per listed text, in the order listed, each carrying that text's count. |
| Dashboard.MostAskedQuestions | src/pages/Dashboard.tsx:25-28 | min(5, number of distinct texts) entries. Texts are distinct. Each count is exact. Entries are sorted by non-increasing count. A text left out was asked no more often than any text shown. |
| Dashboard.RecentQuestionsByDate | src/pages/Dashboard.tsx:31-36 | A subsequence of the questions holding exactly those at most seven days old. Future-dated questions are kept. |
| Dashboard.TopicLabel | src/pages/Dashboard.tsx:41 | `q.topic \|\| 'Unknown'` is never the empty key, and a non-empty topic is its own key. |
| Dashboard.TopicCounts | src/pages/Dashboard.tsx:39-43 | The recent questions are counted per topic, with an empty topic under "Unknown". Every recent question's key is counted. No key is empty. The counts add up to the number of recent questions. |
| Dashboard.CompanyLabel | src/pages/Dashboard.tsx:57 | `job.da_name \|\| 'Unknown'` is never the empty key, and a non-empty DA name is its own key. |
| Dashboard.CompanyCounts | src/pages/Dashboard.tsx:56-60 | Jobs are counted per DA name, not company, with an empty name under "Unknown". Every job's key is counted. No key is empty. The counts add up to the number of jobs. |
| HRDatabase.FilteredEntries | src/pages/HRDatabase.tsx:20-24 | A subsequence of the entries holding exactly those whose company or HR name contains the term ignoring case, or whose contact contains it exactly. |
| HRDatabase.EmptySearchKeepsAllEntries | src/pages/HRDatabase.tsx:20-24 | An empty search keeps every entry. |
| HRDatabase.HRDatabasePage.constructor | src/pages/HRDatabase.tsx:7-18 | Closed form, empty fields, no listed questions. |
| HRDatabase.HRDatabasePage.HandleAddQuestion | src/pages/HRDatabase.tsx:26-32 | Text that is not blank is appended trimmed and the input is cleared. Blank text changes nothing. |
| HRDatabase.HRDatabasePage.HandleSubmit | src/pages/HRDatabase.tsx:34-57 | It is a no-op unless all four fields are non-empty (untrimmed). Otherwise it inserts the entry and then each listed question in order, under the company name as topic. It stops at the first failure. Only full success resets and closes the form. Rows inserted before a failure stay. |
| AskQuestions.AskQuestionsForm.constructor | src/pages/AskQuestions.tsx:6-8 | The form starts with exactly one empty field and no topic or name. |
| AskQuestions.AskQuestionsForm.AddQuestionField | src/pages/AskQuestions.tsx:12-14 | One empty field is appended. |
| AskQuestions.RemoveField | src/pages/AskQuestions.tsx:16-20 | With more than one field, exactly the fields with the id are dropped and the rest keep their order. A lone field stays. |
| AskQuestions.RemoveKeepsAField | src/pages/AskQuestions.tsx:16-20 | With distinct ids, removing never empties the list. |
| AskQuestions.SharedIdEmptiesTheList | src/pages/AskQuestions.tsx:13-18 | Two fields with one id are both removed, leaving none. |
| AskQuestions.RemoveFieldKeepingOne | src/pages/AskQuestions.tsx:16-20 | The corrected removal: a non-empty list stays non-empty. With distinct ids it is exactly `RemoveField`; otherwise it is `RemoveField` or, where that would empty the list, the list unchanged. |
| AskQuestions.AskQuestionsForm.RemoveQuestionField | src/pages/AskQuestions.tsx:16-20 | The field list becomes `RemoveField` of the old one: the guarded filter as written, which can empty the list when ids repeat. |
| AskQuestions.UpdateField | src/pages/AskQuestions.tsx:22-24 | Only the texts of fields with the id change. Length, ids and every other field stay. |
| AskQuestions.UpdateKeepsIds | src/pages/AskQuestions.tsx:22-24 | Editing leaves the list of ids unchanged, so distinct ids stay distinct. |
| AskQuestions.AskQuestionsForm.UpdateQuestion | src/pages/AskQuestions.tsx:22-24 | The field list becomes `UpdateField` of the old one. |
| AskQuestions.QuestionDrafts | src/pages/AskQuestions.tsx:30-37 | Each insert carries the trimmed text of some filled field, which is not empty, the selected topic and the trimmed name. There are no more inserts than fields. One insert per filled field, in field order, is stated by `QuestionDraftsSnoc`. |
| AskQuestions.QuestionDraftsSnoc | src/pages/AskQuestions.tsx:30-37 | One insert per filled field, in field order. Blank fields are skipped. |
| AskQuestions.QuestionDraftsNonEmpty | src/pages/AskQuestions.tsx:28 | There is something to insert iff some field is not blank. |
| AskQuestions.BlankNameStoredEmpty | src/pages/AskQuestions.tsx:28-36 | A name of white space passes the untrimmed guard and is sent as the empty string. |
| AskQuestions.AskQuestionsForm.HandleSubmit | src/pages/AskQuestions.tsx:26-48 | It is a no-op unless there is a topic, a name and a filled field. Otherwise it inserts the drafts in order until one fails. Full success resets the form to one empty field and clears topic and name. Failure keeps the form. Earlier inserts stay. |
| JobOpenings.EmptyToNull | src/pages/JobOpenings.tsx:25 | `value \|\| null`: the empty string becomes null and any other string is kept; the field is never left missing. |
| JobOpenings.JobOf | src/pages/JobOpenings.tsx:22-28 | The job handed to `addJob` copies DA name, company and link, and passes phone number and file name through `EmptyToNull`. |
| JobOpenings.SentJobFields | src/pages/JobOpenings.tsx:22-28 | An empty phone number or file name reaches the store as null and a non-empty one verbatim. The other fields pass through. |
| JobOpenings.RecentJobs | src/pages/JobOpenings.tsx:54-56 | min(10, number of jobs) jobs drawn from the cache, newest first. No job left out is newer than one shown. The cache itself is an unchanged value. |
| JobOpenings.JobOpeningsPage.constructor | src/pages/JobOpenings.tsx:6-15 | Closed, not submitting, empty form. |
| JobOpenings.JobOpeningsPage.HandleSubmit | src/pages/JobOpenings.tsx:17-45 | It is a no-op unless DA name, job link and company name are non-empty. Otherwise it sends one job insert. Success resets and closes the form. Failure keeps it. `submitting` ends false. |
| JobOpenings.JobOpeningsPage.HandleFileUpload | src/pages/JobOpenings.tsx:47-52 | A chosen file sets only the file name. No file changes nothing. |
| CurrentJobs.FilteredJobs | src/pages/CurrentJobs.tsx:8-11 | A subsequence of the jobs holding exactly those whose DA name or link contains the term ignoring case. |
| CurrentJobs.EmptySearchKeepsAllJobs | src/pages/CurrentJobs.tsx:8-11 | An empty search keeps every job. |
| Sorting.SortDescStable | src/pages/CurrentJobs.tsx:14-16 | The sort is stable: for every key value, the elements with that key keep their input order. |
| CurrentJobs.SortedJobs | src/pages/CurrentJobs.tsx:14-16 | A permutation of the filtered jobs, newest first. |
| CurrentJobs.ShownAtMostTotal | src/pages/CurrentJobs.tsx:50 | The shown count never exceeds the total. |
| CurrentJobs.MostRecent | src/pages/CurrentJobs.tsx:53 | Absent iff no job matches. Otherwise it is the largest creation time among the matching jobs. |
| Navigation.IsActive | src/components/Navigation.tsx:29-31 | An active link's path is a prefix of the pathname. The root link is active exactly at "/", and any other link exactly when the pathname starts with its path. |
| Navigation.PathsDistinctAndPrefixFree | src/components/Navigation.tsx:19-27 | The seven paths are pairwise distinct. No non-root path is a prefix of another. |
| Navigation.AtMostOneActive | src/components/Navigation.tsx:19-31 | Whatever the pathname, at most one link is highlighted. |
| Navigation.RootActivatesOnlyDashboard | src/components/Navigation.tsx:30-31 | At "/" the Dashboard link is highlighted and no other. |
| Navigation.NavMenu.constructor | src/components/Navigation.tsx:16 | The mobile menu starts closed. |
| Navigation.NavMenu.Toggle | src/components/Navigation.tsx:63 | The menu button flips `isOpen`. |
| Navigation.NavMenu.FollowLink | src/components/Navigation.tsx:83 | Following a mobile link closes the menu. |

## Left out

- The hosted store client and the network are replaced by the reply parameters. The server-side ordering of selects (`created_at` descending) is not modelled: fetched rows are taken in the order given.
- AppContext.AppProvider.RefreshData: runs the four fetches one after the other. `Promise.all` concurrency and overlapping refreshes are not modelled.
- Rendering is left out: the loading screens, charts, alerts and console logging.
- The body-overflow effect of Recent Questions and the Escape-key listener of Job Openings are left out.
- The `useApp` guard that throws outside the provider and the missing-configuration throw of the store client are left out.
- `questionsPerDay` on the Dashboard is left out. It is keyed by a locale-dependent date string.
- `toLowerCase` is modelled for ASCII letters only. `trim` follows the ECMAScript white-space set.
- Dates are integer milliseconds. The dashboard's floating-point day arithmetic is modelled as the exact integer comparison.
- The order of keys in a JavaScript object is not modelled: integer-like keys are enumerated first. No claim is made about the order of groups or counts.
- Dashboard.MostAskedQuestions: texts are listed in order of first occurrence before the stable sort. That is how ties fall only when no text is an integer-like string.
- Keys that collide with `Object.prototype` members (such as `constructor`) are left out. So is `__proto__` as a topic or text.
- Field ids from `Date.now()` and the id of the fresh field after a reset are parameters.
- AskQuestions.RemoveKeepsAField: holds only for distinct ids. Ids read from the clock can repeat; `SharedIdEmptiesTheList` shows the list then empties, and `RemoveFieldKeepingOne` is the corrected removal (see Findings).
- Dashboard.RecentQuestionsByDate: compares every question with one `now`. The source reads the clock again for each question (src/pages/Dashboard.tsx:33), so a filter that runs across a tick can see several readings; that is not modelled.
- Dashboard.TopicCounts: takes the recent questions as its input rather than recomputing them from the clock.
- A question's `topic` and `asked_by` are plain strings. A null topic is not modelled, so "Unknown" is reached only through the empty string.
- Typing into the inputs (`onChange` setters) and toggling the forms open are left out. The search terms and form contents are parameters or fields.
- A second submit while one is in flight is left out. The methods run to completion.

## Findings

| source | as written | input that shows it | evidently intended | confidence | as-written member | corrected member |
|---|---|---|---|---|---|---|
| src/pages/Dashboard.tsx:17 | The "Unanswered" card shows `questions.length - answers.length`. | One question with two answers: the card shows -1. | The number of questions that have no answer, never negative. | not executed | Dashboard.UnansweredCountCanBeNegative | Dashboard.PendingCount |
| src/pages/AskQuestions.tsx:16-20 | `removeQuestionField` guards with `questions.length > 1` and then drops every field with the id. | Two fields added in the same millisecond share the id 7; removing 7 leaves no field. | The form keeps at least one field. | not executed | AskQuestions.SharedIdEmptiesTheList | AskQuestions.RemoveFieldKeepingOne |
