/** The dashboard's job filter: the jobs the graph and the timeline are given
    under the current filter settings. */
module Dashboard {
  import opened Common
  import opened JobsSlice
  import opened FilterSlice

  /** JavaScript truthiness of an optional text: `null` and "" are falsy. */
  predicate Truthy(o: Option<string>)
  {
    o.Some? && o.value != ""
  }

  /** The filter callback, test by test in the order the page applies them:
      each guard that fires rejects the job. */
  predicate Keep(f: FilterState, job: Job)
  {
    if Truthy(f.componentType) && job.componentType != f.componentType then false
    else if Truthy(f.activitySet) && Some(job.activitySet) != f.activitySet then false
    else if Truthy(f.status) && Some(job.status) != f.status then false
    else if f.showFailed && job.status != "failed" then false
    else if f.timeRange.start.Some? && job.startTime.Some? && job.startTime.value < f.timeRange.start.value then false
    else if f.timeRange.end.Some? && job.endTime.Some? && job.endTime.value > f.timeRange.end.value then false
    else true
  }

  function KeepUnder(f: FilterState): Job -> bool
  {
    (job: Job) => Keep(f, job)
  }

  /** Each filter on its own: what a job must satisfy for that filter. */
  predicate MatchesText(filter: Option<string>, field: Option<string>)
  {
    Truthy(filter) ==> field == filter
  }

  predicate StartsInRange(f: FilterState, job: Job)
  {
    f.timeRange.start.Some? && job.startTime.Some? ==> f.timeRange.start.value <= job.startTime.value
  }

  predicate EndsInRange(f: FilterState, job: Job)
  {
    f.timeRange.end.Some? && job.endTime.Some? ==> job.endTime.value <= f.timeRange.end.value
  }

  /** The filters as one conjunction of independent requirements. */
  predicate Satisfies(f: FilterState, job: Job)
  {
    && MatchesText(f.componentType, job.componentType)
    && MatchesText(f.activitySet, Some(job.activitySet))
    && MatchesText(f.status, Some(job.status))
    && (f.showFailed ==> job.status == "failed")
    && StartsInRange(f, job)
    && EndsInRange(f, job)
  }

  /** The guard chain rejects a job exactly when some requirement fails. */
  lemma KeepIsConjunction(f: FilterState, job: Job)
    ensures Keep(f, job) <==> Satisfies(f, job)
  {
  }

  /** `filteredJobs` */
  function FilteredJobs(f: FilterState, jobs: seq<Job>): (r: seq<Job>)
    ensures IsSubsequence(r, jobs)
    ensures forall job :: job in r <==> job in jobs && Satisfies(f, job)
    ensures forall job :: multiset(r)[job] == if Satisfies(f, job) then multiset(jobs)[job] else 0
  {
    FilterCount(KeepUnder(f), jobs);
    Filter(KeepUnder(f), jobs)
  }

  /** With no filter set, as in the slice's initial state, every job is
      shown. */
  lemma NoFilterKeepsAll(jobs: seq<Job>)
    ensures FilteredJobs(FilterSlice.Initial(), jobs) == jobs
  {
    FilterAll(KeepUnder(FilterSlice.Initial()), jobs);
  }

  /** Resetting the filters shows every job again, whatever was set before. */
  lemma ResetShowsAll(s: FilterState, jobs: seq<Job>)
    ensures FilteredJobs(FilterSlice.Reduce(s, ResetFilters), jobs) == jobs
  {
    NoFilterKeepsAll(jobs);
  }

  /** Filtering the shown list again under the same settings changes
      nothing. */
  lemma FilteredJobsIdempotent(f: FilterState, jobs: seq<Job>)
    ensures FilteredJobs(f, FilteredJobs(f, jobs)) == FilteredJobs(f, jobs)
  {
    FilterAll(KeepUnder(f), FilteredJobs(f, jobs));
  }

  /** What the settings promise about every shown job: only failed jobs when
      `showFailed` is on; an equal field for each set text filter; and a time
      outside the bounds only when the job lacks that time. Both bounds are
      inclusive. */
  lemma ShownJobsMatch(f: FilterState, jobs: seq<Job>, job: Job)
    requires job in FilteredJobs(f, jobs)
    ensures f.showFailed ==> job.status == "failed"
    ensures Truthy(f.status) ==> Some(job.status) == f.status
    ensures Truthy(f.componentType) ==> job.componentType == f.componentType
    ensures Truthy(f.activitySet) ==> Some(job.activitySet) == f.activitySet
    ensures f.timeRange.start.Some? && job.startTime.Some? ==> f.timeRange.start.value <= job.startTime.value
    ensures f.timeRange.end.Some? && job.endTime.Some? ==> job.endTime.value <= f.timeRange.end.value
  {
  }

  /** A job without a start (end) time is never hidden by the start (end)
      bound: the job is shown exactly when it would be without that bound. */
  lemma MissingTimeNotExcluded(f: FilterState, job: Job)
    ensures job.startTime.None? ==>
              (Keep(f, job) <==> Keep(f.(timeRange := f.timeRange.(start := None)), job))
    ensures job.endTime.None? ==>
              (Keep(f, job) <==> Keep(f.(timeRange := f.timeRange.(end := None)), job))
  {
  }

  /** A job exactly on a bound is not hidden by that bound. */
  lemma BoundsInclusive(f: FilterState, job: Job)
    ensures job.startTime.Some? && job.startTime == f.timeRange.start ==>
              (Keep(f, job) <==> Keep(f.(timeRange := f.timeRange.(start := None)), job))
    ensures job.endTime.Some? && job.endTime == f.timeRange.end ==>
              (Keep(f, job) <==> Keep(f.(timeRange := f.timeRange.(end := None)), job))
  {
  }
}
