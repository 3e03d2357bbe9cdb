/** The Current Jobs page: the jobs matching a search, newest first, with the
    shown and total counts and the date of the most recent one. */
module CurrentJobs {
  import opened Records
  import opened Seqs
  import opened Sorting
  import opened Text
  import opened JobOpenings

  /** The search: the DA name or the job link contains the term, ignoring case. */
  predicate MatchesJob(searchTerm: string, j: Job)
  {
    MatchesIgnoringCase(j.daName, searchTerm) || MatchesIgnoringCase(j.jobLink, searchTerm)
  }

  /** filteredJobs: the matching jobs, each as often as in the cache, in order. */
  function FilteredJobs(jobs: seq<Job>, searchTerm: string): (r: seq<Job>)
    ensures IsSubsequence(r, jobs)
    ensures forall j :: multiset(r)[j] == if MatchesJob(searchTerm, j) then multiset(jobs)[j] else 0
  {
    var matches := (j: Job) => MatchesJob(searchTerm, j);
    FilterIsSubsequence(jobs, matches);
    FilterCount(jobs, matches);
    Filter(jobs, matches)
  }

  /** An empty search keeps every job. */
  lemma EmptySearchKeepsAllJobs(jobs: seq<Job>)
    ensures FilteredJobs(jobs, "") == jobs
  {
    var matches := (j: Job) => MatchesJob("", j);
    forall j | j in jobs ensures matches(j) {
      EmptyTermMatches(j.daName);
    }
    FilterAll(jobs, matches);
  }

  /** sortedJobs: a reordering of the filtered jobs, newest first. */
  function SortedJobs(jobs: seq<Job>, searchTerm: string): (r: seq<Job>)
    ensures SortedDesc(r, CreatedAt)
    ensures multiset(r) == multiset(FilteredJobs(jobs, searchTerm))
  {
    SortDesc(FilteredJobs(jobs, searchTerm), CreatedAt)
  }

  /** "Showing n of m": the shown count never exceeds the total. */
  lemma ShownAtMostTotal(jobs: seq<Job>, searchTerm: string)
    ensures |SortedJobs(jobs, searchTerm)| <= |jobs|
  {
    var sorted := SortedJobs(jobs, searchTerm);
    assert |sorted| == |multiset(sorted)| == |FilteredJobs(jobs, searchTerm)|;
  }

  /** The "Most recent" date: absent when no job matches, otherwise the
      latest creation time among the matching jobs. */
  function MostRecent(jobs: seq<Job>, searchTerm: string): (latest: Option<int>)
    ensures latest.None? <==> FilteredJobs(jobs, searchTerm) == []
    ensures latest.Some? ==>
      (exists j :: j in FilteredJobs(jobs, searchTerm) && j.createdAt == latest.value) &&
      forall j :: j in FilteredJobs(jobs, searchTerm) ==> j.createdAt <= latest.value
  {
    var sorted := SortedJobs(jobs, searchTerm);
    var filtered := FilteredJobs(jobs, searchTerm);
    if sorted == [] then
      assert |filtered| == |multiset(filtered)| == 0;
      None
    else
      assert sorted[0] in multiset(filtered);
      forall j | j in filtered ensures j.createdAt <= sorted[0].createdAt {
        assert j in multiset(sorted);
      }
      Some(sorted[0].createdAt)
  }
}
