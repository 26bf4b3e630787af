/** The jobs slice of the Redux store: the job record, the slice state and
    its reducer over the two fetch thunks' lifecycle actions. */
module JobsSlice {
  import opened Common

  /** One dependency entry of a job. The declared type is a structured edge
      `{source, target, type}`; the dependency view and its test data use a
      bare parent-id string instead, so both shapes are modelled. */
  datatype Dependency =
    | ParentRef(parentId: string)
    | Edge(source: string, target: string, edgeType: string)

  /** A job. `startTime` and `endTime` are timestamps already parsed from their
      date text; `componentType` is read by the dashboard filter although the
      interface does not declare it. */
  datatype Job = Job(
    id: string,
    name: string,
    status: string,
    jobType: string,
    activitySet: string,
    componentType: Option<string>,
    maxWaitTime: int,
    runtime: int,
    dependencies: seq<Dependency>,
    startTime: Option<int>,
    endTime: Option<int>)

  datatype JobsState = JobsState(
    jobs: seq<Job>,
    selectedJob: Option<Job>,
    loading: bool,
    error: Option<string>)

  /** The actions the slice handles. A rejection carries the thunk error's
      `message`, which may be absent. */
  datatype JobsAction =
    | SetSelectedJob(job: Option<Job>)
    | GetJobsPending
    | GetJobsFulfilled(payload: seq<Job>)
    | GetJobsRejected(message: Option<string>)
    | GetJobDetailsPending
    | GetJobDetailsFulfilled(detail: Job)
    | GetJobDetailsRejected(message: Option<string>)

  const JobsFailure: string := "Failed to fetch jobs"
  const DetailsFailure: string := "Failed to fetch job details"

  /** The slice's initial state. */
  function Initial(): (s: JobsState)
    ensures s.jobs == [] && s.selectedJob.None? && !s.loading && s.error.None?
  {
    JobsState([], None, false, None)
  }

  /** `message || fallback`: an absent or empty message gives the fallback. */
  function ErrorText(message: Option<string>, fallback: string): (e: string)
    ensures message.Some? && message.value != "" ==> e == message.value
    ensures message.None? || message.value == "" ==> e == fallback
  {
    if message.Some? && message.value != "" then message.value else fallback
  }

  predicate IsPending(a: JobsAction)
  {
    a.GetJobsPending? || a.GetJobDetailsPending?
  }

  predicate IsRejected(a: JobsAction)
  {
    a.GetJobsRejected? || a.GetJobDetailsRejected?
  }

  /** The slice reducer. */
  function Reduce(s: JobsState, a: JobsAction): (r: JobsState)
    ensures a.SetSelectedJob? ==> r == s.(selectedJob := a.job)
    ensures IsPending(a) ==> r.loading && r.error.None? && r.jobs == s.jobs && r.selectedJob == s.selectedJob
    ensures a.GetJobsFulfilled? ==>
              !r.loading && r.jobs == a.payload && r.selectedJob == s.selectedJob && r.error == s.error
    ensures a.GetJobDetailsFulfilled? ==>
              !r.loading && r.selectedJob == Some(a.detail) && r.jobs == s.jobs && r.error == s.error
    ensures IsRejected(a) ==>
              && !r.loading && r.jobs == s.jobs && r.selectedJob == s.selectedJob
              && r.error.Some? && r.error.value != ""
              && (a.message.Some? && a.message.value != "" ==> r.error == a.message)
    ensures a.GetJobsRejected? && (a.message.None? || a.message.value == "") ==> r.error == Some(JobsFailure)
    ensures a.GetJobDetailsRejected? && (a.message.None? || a.message.value == "") ==> r.error == Some(DetailsFailure)
  {
    match a
    case SetSelectedJob(job) => s.(selectedJob := job)
    case GetJobsPending => s.(loading := true, error := None)
    case GetJobsFulfilled(payload) => s.(loading := false, jobs := payload)
    case GetJobsRejected(message) => s.(loading := false, error := Some(ErrorText(message, JobsFailure)))
    case GetJobDetailsPending => s.(loading := true, error := None)
    case GetJobDetailsFulfilled(detail) => s.(loading := false, selectedJob := Some(detail))
    case GetJobDetailsRejected(message) => s.(loading := false, error := Some(ErrorText(message, DetailsFailure)))
  }

  /** The state after dispatching `actions` in order. */
  function ReduceAll(s: JobsState, actions: seq<JobsAction>): JobsState
    decreases |actions|
  {
    if |actions| == 0 then s else ReduceAll(Reduce(s, actions[0]), actions[1..])
  }

  /** A dispatched sequence ends in the state its last action leaves. */
  lemma {:induction false} ReduceAllSnoc(s: JobsState, actions: seq<JobsAction>, a: JobsAction)
    ensures ReduceAll(s, actions + [a]) == Reduce(ReduceAll(s, actions), a)
    decreases |actions|
  {
    if |actions| > 0 {
      assert (actions + [a])[1..] == actions[1..] + [a];
      ReduceAllSnoc(Reduce(s, actions[0]), actions[1..], a);
    }
  }

  /** Whatever is dispatched from the initial state, a recorded error is never
      the empty string: every rejection falls back to a non-empty text. */
  lemma {:induction false} ErrorNeverEmpty(actions: seq<JobsAction>)
    ensures var s := ReduceAll(Initial(), actions);
            s.error.None? || s.error.value != ""
    decreases |actions|
  {
    if |actions| > 0 {
      var init := actions[..|actions| - 1];
      var last := actions[|actions| - 1];
      assert actions == init + [last];
      ErrorNeverEmpty(init);
      ReduceAllSnoc(Initial(), init, last);
    }
  }

  /** After any non-empty run of thunk actions, `loading` is set exactly when
      the last one was a pending action. */
  lemma {:induction false} LoadingTracksLastThunk(s: JobsState, actions: seq<JobsAction>)
    requires |actions| > 0
    requires forall i :: 0 <= i < |actions| ==> !actions[i].SetSelectedJob?
    ensures ReduceAll(s, actions).loading <==> IsPending(actions[|actions| - 1])
  {
    var init := actions[..|actions| - 1];
    var last := actions[|actions| - 1];
    assert actions == init + [last];
    ReduceAllSnoc(s, init, last);
  }

  /** A fetch that starts and then fails keeps the jobs and the selection the
      store had, and leaves it idle with an error. */
  lemma FailedFetchKeepsJobs(s: JobsState, message: Option<string>)
    ensures var r := ReduceAll(s, [GetJobsPending, GetJobsRejected(message)]);
            && r.jobs == s.jobs && r.selectedJob == s.selectedJob
            && !r.loading && r.error.Some? && r.error.value != ""
  {
    var acts := [GetJobsPending, GetJobsRejected(message)];
    var s1 := Reduce(s, GetJobsPending);
    assert acts[1..] == [GetJobsRejected(message)];
    assert ReduceAll(s1, acts[1..]) == ReduceAll(Reduce(s1, GetJobsRejected(message)), []);
  }

  /** A fetch that starts and then succeeds installs the payload, leaves the
      store idle and clears any earlier error. */
  lemma SuccessfulFetchClearsError(s: JobsState, payload: seq<Job>)
    ensures var r := ReduceAll(s, [GetJobsPending, GetJobsFulfilled(payload)]);
            r == s.(jobs := payload, loading := false, error := None)
  {
    var acts := [GetJobsPending, GetJobsFulfilled(payload)];
    var s1 := Reduce(s, GetJobsPending);
    assert acts[1..] == [GetJobsFulfilled(payload)];
    assert ReduceAll(s1, acts[1..]) == ReduceAll(Reduce(s1, GetJobsFulfilled(payload)), []);
  }
}
