/** The filter slice of the Redux store: the dashboard's filter settings and
    the reducer of their setters. */
module FilterSlice {
  import opened Common

  /** The time bounds, as timestamps already parsed from their date text. */
  datatype TimeRange = TimeRange(start: Option<int>, end: Option<int>)

  datatype FilterState = FilterState(
    componentType: Option<string>,
    activitySet: Option<string>,
    status: Option<string>,
    showFailed: bool,
    timeRange: TimeRange)

  datatype FilterAction =
    | SetComponentTypeFilter(componentType: Option<string>)
    | SetActivitySetFilter(activitySet: Option<string>)
    | SetStatusFilter(status: Option<string>)
    | SetShowFailedOnly(showFailed: bool)
    | SetTimeRange(range: TimeRange)
    | ResetFilters

  /** The five independently settable parts of the state. */
  datatype Field = ComponentType | ActivitySet | Status | ShowFailed | Time

  /** The slice's initial state: no filter at all. */
  function Initial(): (s: FilterState)
    ensures s.componentType.None? && s.activitySet.None? && s.status.None?
    ensures !s.showFailed && s.timeRange.start.None? && s.timeRange.end.None?
  {
    FilterState(None, None, None, false, TimeRange(None, None))
  }

  /** The parts in which two states differ. */
  function Differ(s: FilterState, t: FilterState): (d: set<Field>)
    ensures d == {} <==> s == t
  {
    (if s.componentType != t.componentType then {ComponentType} else {})
    + (if s.activitySet != t.activitySet then {ActivitySet} else {})
    + (if s.status != t.status then {Status} else {})
    + (if s.showFailed != t.showFailed then {ShowFailed} else {})
    + (if s.timeRange != t.timeRange then {Time} else {})
  }

  /** The parts an action may write. */
  function Written(a: FilterAction): set<Field>
  {
    match a
    case SetComponentTypeFilter(_) => {ComponentType}
    case SetActivitySetFilter(_) => {ActivitySet}
    case SetStatusFilter(_) => {Status}
    case SetShowFailedOnly(_) => {ShowFailed}
    case SetTimeRange(_) => {Time}
    case ResetFilters => {ComponentType, ActivitySet, Status, ShowFailed, Time}
  }

  /** The slice reducer. Each setter stores its payload in its own part and
      leaves every other part as it was; the reset returns the initial
      state. */
  function Reduce(s: FilterState, a: FilterAction): (r: FilterState)
    ensures Differ(s, r) <= Written(a)
    ensures a.SetComponentTypeFilter? ==> r.componentType == a.componentType
    ensures a.SetActivitySetFilter? ==> r.activitySet == a.activitySet
    ensures a.SetStatusFilter? ==> r.status == a.status
    ensures a.SetShowFailedOnly? ==> r.showFailed == a.showFailed
    ensures a.SetTimeRange? ==> r.timeRange.start == a.range.start && r.timeRange.end == a.range.end
    ensures a.ResetFilters? ==> r == Initial()
  {
    match a
    case SetComponentTypeFilter(v) => s.(componentType := v)
    case SetActivitySetFilter(v) => s.(activitySet := v)
    case SetStatusFilter(v) => s.(status := v)
    case SetShowFailedOnly(b) => s.(showFailed := b)
    case SetTimeRange(range) => s.(timeRange := range)
    case ResetFilters => Initial()
  }

  /** Dispatching the same action twice has the effect of dispatching it
      once; in particular the reset is idempotent. */
  lemma ReduceIdempotent(s: FilterState, a: FilterAction)
    ensures Reduce(Reduce(s, a), a) == Reduce(s, a)
  {
  }

  /** Setters of different parts commute. */
  lemma SettersCommute(s: FilterState, a: FilterAction, b: FilterAction)
    requires Written(a) !! Written(b)
    ensures Reduce(Reduce(s, a), b) == Reduce(Reduce(s, b), a)
  {
  }

  /** A setter that changes the state changes exactly its own part. */
  lemma SetterNoChange(s: FilterState, a: FilterAction)
    requires !a.ResetFilters?
    requires Reduce(s, a) != s
    ensures Differ(s, Reduce(s, a)) == Written(a)
  {
  }
}
