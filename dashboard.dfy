/** The Dashboard: the summary cards, the five most asked questions, the
    questions of the last seven days by topic, and the jobs per company. */
module Dashboard {
  import opened Records
  import opened Seqs
  import opened Tally
  import opened Sorting
  import opened ExpertAnswers

  /** unansweredCount, as written: the number of questions minus the number
      of answers. */
  function UnansweredCount(questions: seq<Question>, answers: seq<Answer>): (n: int)
    ensures n + |answers| == |questions|
    ensures n < 0 <==> |answers| > |questions|
  {
    |questions| - |answers|
  }

  /** The questions that no cached answer names, in order. */
  function PendingQuestions(questions: seq<Question>, answers: seq<Answer>): (r: seq<Question>)
    ensures IsSubsequence(r, questions)
    ensures forall q :: multiset(r)[q] == if HasAnswer(answers, q.id) then 0 else multiset(questions)[q]
  {
    var pending := (q: Question) => !HasAnswer(answers, q.id);
    FilterIsSubsequence(questions, pending);
    FilterCount(questions, pending);
    Filter(questions, pending)
  }

  /** The number the "Unanswered" card is meant to show: never negative, and
      together with the answered questions it accounts for every question. */
  function PendingCount(questions: seq<Question>, answers: seq<Answer>): (n: nat)
    ensures n <= |questions|
    ensures n + |AnsweredQuestions(questions, answers)| == |questions|
  {
    var pending := PendingQuestions(questions, answers);
    var answered := AnsweredQuestions(questions, answers);
    assert multiset(pending) + multiset(answered) == multiset(questions);
    |pending|
  }

  /** One question answered twice: the card as written shows -1 where no
      question is unanswered. */
  lemma UnansweredCountCanBeNegative()
    ensures var q := Question("q1", "What is a pivot table?", "Advanced Excel", "u1", 0);
            var a1 := Answer("a1", "q1", "A summary of a table.", "u2", 1);
            var a2 := Answer("a2", "q1", "It aggregates rows.", "u3", 2);
            UnansweredCount([q], [a1, a2]) == -1 && PendingCount([q], [a1, a2]) == 0
  {
    var q := Question("q1", "What is a pivot table?", "Advanced Excel", "u1", 0);
    var a1 := Answer("a1", "q1", "A summary of a table.", "u2", 1);
    var a2 := Answer("a2", "q1", "It aggregates rows.", "u3", 2);
    assert a1 in [a1, a2];
    assert HasAnswer([a1, a2], q.id);
    var pending := PendingQuestions([q], [a1, a2]);
    assert multiset(pending)[q] == 0;
  }

  /** Before any answer exists the two counts agree. */
  lemma CountsAgreeWithoutAnswers(questions: seq<Question>)
    ensures PendingCount(questions, []) == UnansweredCount(questions, []) == |questions|
  {
    var answered := AnsweredQuestions(questions, []);
  }

  function TextOf(q: Question): string
  {
    q.text
  }

  /** questionFrequency: each distinct question text mapped to how often it
      was asked; the counts add up to the number of questions. */
  method QuestionFrequency(questions: seq<Question>) returns (freq: map<string, nat>)
    ensures freq == Occurrences(Project(questions, TextOf))
    ensures Total(freq, Distinct(Project(questions, TextOf))) == |questions|
  {
    freq := CountBy(questions, TextOf);
    OccurrencesTotal(Project(questions, TextOf));
  }

  /** An entry of the "most asked" chart. */
  datatype Ranked = Ranked(text: string, count: nat)

  function CountOf(r: Ranked): int
  {
    r.count
  }

  /** `Object.entries(freq).map(([text, count]) => ({ text, count }))`, with
      the keys listed in `texts`. */
  function Entries(freq: map<string, nat>, texts: seq<string>): (entries: seq<Ranked>)
    requires forall t :: t in texts ==> t in freq
    ensures |entries| == |texts|
    ensures forall i :: 0 <= i < |texts| ==> entries[i] == Ranked(texts[i], freq[texts[i]])
  {
    if texts == [] then [] else [Ranked(texts[0], freq[texts[0]])] + Entries(freq, texts[1..])
  }

  /** Some entry of `top` is for the text `t`. */
  predicate Listed(top: seq<Ranked>, t: string)
  {
    exists r :: r in top && r.text == t
  }

  /** mostAskedQuestions: at most five entries, one per text, each with the
      text's exact count, largest count first; a text left out was asked no
      more often than any text shown. */
  function MostAskedQuestions(questions: seq<Question>): (top: seq<Ranked>)
    ensures var texts := Project(questions, TextOf);
      && |top| == Min(5, |Distinct(texts)|)
      && SortedDesc(top, CountOf)
      && (forall r :: r in top ==> r.text in texts && r.count == multiset(texts)[r.text])
      && (forall i, j :: 0 <= i < j < |top| ==> top[i].text != top[j].text)
      && (forall t, r :: t in texts && !Listed(top, t) && r in top ==> multiset(texts)[t] <= r.count)
  {
    var texts := Project(questions, TextOf);
    var freq := Occurrences(texts);
    var entries := Entries(freq, Distinct(texts));
    var top := Top(entries, CountOf, 5);
    RankingFacts(texts, entries, top);
    top
  }

  lemma RankingFacts(texts: seq<string>, entries: seq<Ranked>, top: seq<Ranked>)
    requires entries == Entries(Occurrences(texts), Distinct(texts))
    requires multiset(top) <= multiset(entries)
    requires forall x, y :: x in multiset(entries) - multiset(top) && y in top ==> CountOf(x) <= CountOf(y)
    ensures forall r :: r in top ==> r.text in texts && r.count == multiset(texts)[r.text]
    ensures forall i, j :: 0 <= i < j < |top| ==> top[i].text != top[j].text
    ensures forall t, r :: t in texts && !Listed(top, t) && r in top ==> multiset(texts)[t] <= r.count
  {
    var ds := Distinct(texts);
    forall r | r in top ensures r.text in texts && r.count == multiset(texts)[r.text] {
      assert r in multiset(entries);
    }
    EntriesHaveDistinctTexts(ds, entries, top);
    OmittedRankNoHigher(ds, entries, top);
    forall t, r | t in texts && !Listed(top, t) && r in top ensures multiset(texts)[t] <= r.count {
      var a :| 0 <= a < |ds| && ds[a] == t;
      assert entries[a].count <= r.count;
    }
  }

  /** Entries listed one per distinct text have distinct texts in any
      selection from them. */
  lemma EntriesHaveDistinctTexts(ds: seq<string>, entries: seq<Ranked>, top: seq<Ranked>)
    requires NoDuplicates(ds) && |entries| == |ds|
    requires forall i :: 0 <= i < |ds| ==> entries[i].text == ds[i]
    requires multiset(top) <= multiset(entries)
    ensures forall i, j :: 0 <= i < j < |top| ==> top[i].text != top[j].text
  {
    assert NoDuplicates(entries) by {
      forall i, j | 0 <= i < j < |entries| ensures entries[i] != entries[j] {
        assert entries[i].text == ds[i] && entries[j].text == ds[j];
      }
    }
    forall i, j | 0 <= i < j < |top| ensures top[i].text != top[j].text {
      if top[i].text == top[j].text {
        assert top[i] in multiset(entries) && top[j] in multiset(entries);
        var a :| 0 <= a < |entries| && entries[a] == top[i];
        var b :| 0 <= b < |entries| && entries[b] == top[j];
        assert ds[a] == ds[b];
        TwiceCounted(top, i, j);
        NoDuplicatesCountsOnce(entries, top[i]);
        assert false;
      }
    }
  }

  /** An entry left out of the selection ranks no higher than any selected. */
  lemma OmittedRankNoHigher(ds: seq<string>, entries: seq<Ranked>, top: seq<Ranked>)
    requires |entries| == |ds|
    requires forall i :: 0 <= i < |ds| ==> entries[i].text == ds[i]
    requires forall x, y :: x in multiset(entries) - multiset(top) && y in top ==> CountOf(x) <= CountOf(y)
    ensures forall a, r :: 0 <= a < |ds| && !Listed(top, ds[a]) && r in top ==> entries[a].count <= r.count
  {
    forall a, r | 0 <= a < |ds| && !Listed(top, ds[a]) && r in top ensures entries[a].count <= r.count {
      var x := entries[a];
      assert x !in top;
      assert x in multiset(entries) - multiset(top);
    }
  }

  /** Seven days in milliseconds. */
  const WeekMs := 7 * 24 * 60 * 60 * 1000

  /** The recency test: at most seven days old; a date in the future passes. */
  predicate IsRecent(now: int, createdAt: int)
  {
    now - createdAt <= WeekMs
  }

  /** recentQuestionsByDate: the questions of the last seven days, in order. */
  function RecentQuestionsByDate(questions: seq<Question>, now: int): (r: seq<Question>)
    ensures IsSubsequence(r, questions)
    ensures forall q :: multiset(r)[q] == if IsRecent(now, q.createdAt) then multiset(questions)[q] else 0
    ensures forall q :: q in questions && q.createdAt >= now ==> q in r
  {
    var recent := (q: Question) => IsRecent(now, q.createdAt);
    FilterIsSubsequence(questions, recent);
    FilterCount(questions, recent);
    Filter(questions, recent)
  }

  /** `q.topic || 'Unknown'`. */
  function TopicLabel(q: Question): (name: string)
    ensures name != ""
    ensures q.topic != "" ==> name == q.topic
  {
    if q.topic == "" then "Unknown" else q.topic
  }

  /** topicCounts, the `forEach` over `recentQuestionsByDate` (passed as
      `recent`): the questions counted per topic, an empty topic filed under
      "Unknown"; the counts add up to the number of recent questions. */
  method TopicCounts(recent: seq<Question>) returns (counts: map<string, nat>)
    ensures counts == Occurrences(Project(recent, TopicLabel))
    ensures Total(counts, Distinct(Project(recent, TopicLabel))) == |recent|
    ensures "" !in counts
    ensures forall q :: q in recent ==> TopicLabel(q) in counts
  {
    counts := CountBy(recent, TopicLabel);
    CountedKeys(recent, TopicLabel, "");
  }

  /** `job.da_name || 'Unknown'`: jobs are counted by the DA's name. */
  function CompanyLabel(j: Job): (name: string)
    ensures name != ""
    ensures j.daName != "" ==> name == j.daName
  {
    if j.daName == "" then "Unknown" else j.daName
  }

  /** companyCounts: the jobs counted per DA name, an empty name filed under
      "Unknown"; the counts add up to the number of jobs. */
  method CompanyCounts(jobs: seq<Job>) returns (counts: map<string, nat>)
    ensures counts == Occurrences(Project(jobs, CompanyLabel))
    ensures Total(counts, Distinct(Project(jobs, CompanyLabel))) == |jobs|
    ensures "" !in counts
    ensures forall j :: j in jobs ==> CompanyLabel(j) in counts
  {
    counts := CountBy(jobs, CompanyLabel);
    CountedKeys(jobs, CompanyLabel, "");
  }
}
