/** The sample job generators. `Math.random()` is an oracle: the n-th value
    it returns during one call of a generator is `rand(n)`. */
module SampleData {
  import opened Common
  import opened JobsSlice

  /** A value `Math.random()` can return. */
  type Unit = r: real | 0.0 <= r < 1.0

  type Oracle = nat -> Unit

  const Statuses: seq<string> := ["completed", "running", "failed", "waiting"]

  const MaxChildrenPerNode: nat := 15

  const StructuredSize: nat := 1000

  /** `job-${i}` */
  function JobId(i: nat): string
  {
    "job-" + NatToString(i)
  }

  /** Distinct indices give distinct ids. */
  lemma JobIdInjective(a: nat, b: nat)
    ensures JobId(a) == JobId(b) <==> a == b
  {
    if JobId(a) == JobId(b) {
      assert JobId(a)[4..] == NatToString(a);
      assert JobId(b)[4..] == NatToString(b);
      NatToStringInjective(a, b);
    }
  }

  /** `statuses[Math.floor(Math.random() * statuses.length)]` */
  function RandomStatus(r: Unit): (s: string)
    ensures s in Statuses
  {
    Statuses[(r * 4.0).Floor]
  }

  /** Every status is drawn for some oracle value. */
  lemma EveryStatusDrawn(k: nat)
    requires k < |Statuses|
    ensures RandomStatus(k as real / 4.0) == Statuses[k]
  {
    assert (k as real / 4.0) * 4.0 == k as real;
  }

  /** The fields `createJob` fixes whatever its arguments. */
  predicate Defaults(j: Job)
  {
    && j.status in Statuses
    && j.jobType == "Box"
    && j.activitySet == "defaultActivitySet"
    && j.maxWaitTime == 0
    && j.runtime == 0
    && j.componentType.None? && j.startTime.None? && j.endTime.None?
  }

  /** `createJob(id, name, dependencies)`, drawing its status from `r`. */
  function CreateJob(id: string, name: string, deps: seq<Dependency>, r: Unit): (j: Job)
    ensures j.id == id && j.name == name && j.dependencies == deps
    ensures j.status == RandomStatus(r)
    ensures Defaults(j)
  {
    Job(id, name, RandomStatus(r), "Box", "defaultActivitySet", None, 0, 0, deps, None, None)
  }

  // ---------------------------------------------------------------------
  // generateLargeJobDataset

  /** The index of the parent of job `i`: the parent index starts at 0 and
      moves on after every fifteenth job. */
  function ParentIndex(i: nat): nat
    requires i >= 1
  {
    (i - 1) / MaxChildrenPerNode
  }

  /** A parent precedes its children, and the children of parent `p` are the
      fifteen consecutive jobs after `15 * p`, so no job has more than fifteen
      children. */
  lemma ParentWindow(i: nat, p: nat)
    requires i >= 1
    ensures ParentIndex(i) < i
    ensures ParentIndex(i) == p <==> 15 * p + 1 <= i <= 15 * p + 15
  {
  }

  /** The counter of the loop moves on after job `i` exactly when `i` is a
      multiple of fifteen. */
  lemma ParentIndexStep(i: nat)
    requires i >= 1
    ensures ParentIndex(i + 1) == if i % MaxChildrenPerNode == 0 then ParentIndex(i) + 1 else ParentIndex(i)
  {
  }

  /** `Math.floor(count * 0.1)`, the first index the cross-edge loop visits. */
  function CrossStart(count: int): int
  {
    (count as real * 0.1).Floor
  }

  lemma CrossStartIsDiv(count: int)
    ensures CrossStart(count) == count / 10
  {
    var q := count / 10;
    var r := count % 10;
    assert count == 10 * q + r;
    assert count as real * 0.1 == q as real + r as real / 10.0;
  }

  /** The indices that get a cross edge: those a loop from `start` visits
      (every tenth index, below `count`) that exceed 10. */
  predicate IsCrossIndex(start: int, count: int, i: int)
  {
    start <= i < count && (i - start) % 10 == 0 && i > 10
  }

  function LargeName(i: nat): string
  {
    if i == 0 then "Root Task" else "Task " + NatToString(i)
  }

  function ParentEdge(p: nat, i: nat): Dependency
  {
    Edge(JobId(p), JobId(i), "parent")
  }

  function CrossEdge(i: nat): Dependency
  {
    Edge(JobId(i), JobId(i / 2), "cross")
  }

  /** The dependencies job `i >= 1` of the large dataset ends up with. */
  function LargeDeps(count: int, i: nat): seq<Dependency>
    requires i >= 1
  {
    [ParentEdge(ParentIndex(i), i)] + (if IsCrossIndex(CrossStart(count), count, i) then [CrossEdge(i)] else [])
  }

  /** What the tree pass fixes about job `i`, before any cross edge. */
  predicate TreeJob(job: Job, i: nat, rand: Oracle)
  {
    && job.id == JobId(i) && job.name == LargeName(i)
    && job.status == RandomStatus(rand(i)) && Defaults(job)
    && (i == 0 ==> job.dependencies == [])
  }

  /** Job `i` as the tree pass creates it. */
  function TreeNode(i: nat, rand: Oracle): Job
  {
    CreateJob(JobId(i), LargeName(i), if i == 0 then [] else [ParentEdge(ParentIndex(i), i)], rand(i))
  }

  /** Job `k` once a cross-edge loop from `start` has visited every index
      below `i`. */
  function Crossed(start: int, count: int, i: int, k: nat, rand: Oracle): Job
  {
    var j := TreeNode(k, rand);
    if IsCrossIndex(start, count, k) && k < i then j.(dependencies := j.dependencies + [CrossEdge(k)]) else j
  }

  /** The first `n` jobs of the tree pass. */
  function TreeNodes(n: nat, rand: Oracle): (r: seq<Job>)
    ensures |r| == n
  {
    seq(n, k requires 0 <= k < n => TreeNode(k, rand))
  }

  /** The `n` jobs once a cross-edge loop from `start` has visited every
      index below `i`. */
  function CrossedJobs(start: int, count: int, i: int, n: nat, rand: Oracle): (r: seq<Job>)
    ensures |r| == n
  {
    seq(n, k requires 0 <= k < n => Crossed(start, count, i, k, rand))
  }

  /** Reference definition of `generateLargeJobDataset(count)`. */
  function LargeJobs(count: int, rand: Oracle): seq<Job>
  {
    CrossedJobs(CrossStart(count), count, count, if count >= 1 then count else 1, rand)
  }

  /** Each generated job has its index's id and name, a random status, the
      fixed defaults, and its parent edge followed by its cross edge if any. */
  lemma LargeJobsShape(count: int, rand: Oracle)
    ensures var jobs := LargeJobs(count, rand);
            && |jobs| == (if count >= 1 then count else 1)
            && (forall k :: 0 <= k < |jobs| ==> TreeJob(jobs[k], k, rand))
            && (forall k :: 1 <= k < |jobs| ==> jobs[k].dependencies == LargeDeps(count, k))
  {
  }

  /** One iteration of the tree pass appends the next reference job. */
  lemma TreeStep(i: nat, parentIndex: nat, rand: Oracle)
    requires i >= 1 && parentIndex == ParentIndex(i)
    ensures TreeNodes(i, rand) + [CreateJob(JobId(i), LargeName(i), [ParentEdge(parentIndex, i)], rand(i))]
            == TreeNodes(i + 1, rand)
  {
  }

  /** `generateLargeJobDataset(count)` */
  method GenerateLargeJobDataset(count: int, rand: Oracle) returns (jobs: seq<Job>)
    ensures jobs == LargeJobs(count, rand)
    ensures |jobs| == if count >= 1 then count else 1
    ensures forall i :: 0 <= i < |jobs| ==> TreeJob(jobs[i], i, rand)
    ensures forall i :: 1 <= i < |jobs| ==> jobs[i].dependencies == LargeDeps(count, i)
  {
    jobs := [CreateJob(JobId(0), LargeName(0), [], rand(0))];
    assert jobs == TreeNodes(1, rand);
    var parentIndex := 0;
    var i := 1;
    while i < count
      invariant 1 <= i && (i <= count || i == 1)
      invariant parentIndex == ParentIndex(i)
      invariant jobs == TreeNodes(i, rand)
    {
      TreeStep(i, parentIndex, rand);
      var job := CreateJob(JobId(i), LargeName(i), [ParentEdge(parentIndex, i)], rand(i));
      jobs := jobs + [job];
      ParentIndexStep(i);
      if i % MaxChildrenPerNode == 0 {
        parentIndex := parentIndex + 1;
      }
      i := i + 1;
    }
    jobs := AddCrossEdges(count, jobs, rand);
    LargeJobsShape(count, rand);
  }

  /** The indices the loop steps over are not cross indices. */
  lemma SkippedNotCross(start: int, count: int, i: int, k: int)
    requires (i - start) % 10 == 0 && i < k < i + 10
    ensures !IsCrossIndex(start, count, k)
  {
  }

  /** One iteration of the cross-edge loop, at index `i`. */
  function CrossStep(jobs: seq<Job>, i: nat): (r: seq<Job>)
    requires i < |jobs|
    ensures |r| == |jobs|
  {
    if i > 10 then jobs[i := jobs[i].(dependencies := jobs[i].dependencies + [CrossEdge(i)])] else jobs
  }

  /** The loop visits `i` and moves on to `i + 10`. */
  lemma CrossStepKeeps(start: int, count: int, i: nat, n: nat, rand: Oracle)
    requires start <= i < n && i < count && (i - start) % 10 == 0
    ensures CrossStep(CrossedJobs(start, count, i, n, rand), i) == CrossedJobs(start, count, i + 10, n, rand)
  {
    var r := CrossStep(CrossedJobs(start, count, i, n, rand), i);
    forall k | 0 <= k < n
      ensures r[k] == Crossed(start, count, i + 10, k, rand)
    {
      CrossStepAt(start, count, i, k, rand);
    }
  }

  /** Visiting `i` changes job `k` exactly as moving the bound to `i + 10`
      does. */
  lemma CrossStepAt(start: int, count: int, i: nat, k: nat, rand: Oracle)
    requires start <= i < count && (i - start) % 10 == 0
    ensures Crossed(start, count, i + 10, k, rand)
            == if k == i && i > 10 then
                 var j := Crossed(start, count, i, k, rand); j.(dependencies := j.dependencies + [CrossEdge(i)])
               else Crossed(start, count, i, k, rand)
  {
    if i < k < i + 10 {
      SkippedNotCross(start, count, i, k);
    }
  }

  /** The loop starts inside the list when `count` is positive, and does not
      start at all otherwise. */
  lemma CrossStartNonNegative(count: int)
    ensures count >= 1 ==> 0 <= CrossStart(count) < count
    ensures count < 1 ==> count <= CrossStart(count)
  {
    CrossStartIsDiv(count);
  }

  /** Before the loop no index has been visited. */
  lemma CrossedBeforeLoop(start: int, count: int, n: nat, rand: Oracle)
    ensures TreeNodes(n, rand) == CrossedJobs(start, count, start, n, rand)
  {
  }

  /** Once the loop has passed `count`, every job is the generated one. */
  lemma CrossedAfterLoop(count: int, i: int, rand: Oracle)
    requires count <= i
    ensures var n := if count >= 1 then count else 1;
            CrossedJobs(CrossStart(count), count, i, n, rand) == LargeJobs(count, rand)
  {
  }

  /** The second loop of `generateLargeJobDataset`. */
  method AddCrossEdges(count: int, tree: seq<Job>, rand: Oracle) returns (jobs: seq<Job>)
    requires |tree| == if count >= 1 then count else 1
    requires tree == TreeNodes(|tree|, rand)
    ensures jobs == LargeJobs(count, rand)
  {
    var start := CrossStart(count);
    CrossStartNonNegative(count);
    CrossedBeforeLoop(start, count, |tree|, rand);
    var i;
    jobs, i := CrossLoop(start, count, tree, rand);
    CrossedAfterLoop(count, i, rand);
  }

  /** The cross-edge loop from index `start`, returning the jobs and the
      index it stopped at. */
  method CrossLoop(start: int, count: int, tree: seq<Job>, rand: Oracle) returns (jobs: seq<Job>, i: int)
    requires count >= 1 ==> 0 <= start && |tree| == count
    requires count < 1 ==> count <= start
    requires tree == CrossedJobs(start, count, start, |tree|, rand)
    ensures count <= i && jobs == CrossedJobs(start, count, i, |tree|, rand)
  {
    jobs := tree;
    i := start;
    while i < count
      invariant start <= i && (i - start) % 10 == 0
      invariant jobs == CrossedJobs(start, count, i, |tree|, rand)
      decreases count - i
    {
      CrossStepKeeps(start, count, i, |tree|, rand);
      jobs := CrossStep(jobs, i);
      i := i + 10;
    }
  }

  // ---------------------------------------------------------------------
  // generateStructuredJobDataset

  /** `Math.max(1, Math.floor(Math.random() * width + 1))` */
  function ChildrenCount(r: Unit, width: int): nat
  {
    var c := (r * width as real + 1.0).Floor;
    if c > 1 then c else 1
  }

  /** The drawn child count is at least one, and at most `width` when `width`
      is at least one. The 1000-job cap can still leave a parent with fewer
      children than it drew, or with none. */
  lemma ChildrenCountBounds(r: Unit, width: int)
    ensures 1 <= ChildrenCount(r, width)
    ensures width >= 1 ==> ChildrenCount(r, width) <= width
  {
    if width >= 1 {
      assert r * width as real < width as real;
    }
  }

  /** `Math.floor(Math.random() * (jobs.length - 1))`: the index of an
      existing job, never the newest one once there are two. */
  function ExtraParentIndex(r: Unit, n: nat): (p: nat)
    requires n >= 1
    ensures p < n && (n >= 2 ==> p <= n - 2)
  {
    var k := (n - 1) as real;
    assert 0.0 <= r * k <= k by {
      assert r * k <= 1.0 * k;
    }
    assert n >= 2 ==> r * k < k;
    (r * k).Floor
  }

  /** Job `i` has exactly one dependency, a 'parent' edge to it from a job
      earlier in the list. */
  predicate HasEarlierParent(jobs: seq<Job>, i: nat)
    requires i < |jobs|
  {
    && |jobs[i].dependencies| == 1
    && jobs[i].dependencies[0].Edge?
    && jobs[i].dependencies[0].edgeType == "parent"
    && jobs[i].dependencies[0].target == jobs[i].id
    && exists p :: 0 <= p < i && jobs[i].dependencies[0].source == JobId(p)
  }

  /** The shape every prefix of the structured dataset has. */
  predicate Structured(jobs: seq<Job>)
  {
    && |jobs| >= 1
    && jobs[0].name == "Root Task" && jobs[0].dependencies == []
    && (forall i :: 0 <= i < |jobs| ==> jobs[i].id == JobId(i) && Defaults(jobs[i]))
    && (forall i :: 1 <= i < |jobs| ==> HasEarlierParent(jobs, i))
  }

  /** Every id on the level list names a job already generated. */
  predicate LevelKnown(level: seq<string>, idx: seq<nat>, n: nat)
  {
    |idx| == |level| && forall m :: 0 <= m < |level| ==> level[m] == JobId(idx[m]) && idx[m] < n
  }

  /** Appends one child of job `p` with the next index. */
  method AppendChild(jobs: seq<Job>, parentId: string, ghost p: nat, name: string, r: Unit) returns (jobs': seq<Job>)
    requires Structured(jobs) && p < |jobs| && parentId == JobId(p)
    ensures Structured(jobs') && |jobs'| == |jobs| + 1
    ensures jobs'[..|jobs|] == jobs
  {
    var jobId := JobId(|jobs|);
    jobs' := jobs + [CreateJob(jobId, name, [Edge(parentId, jobId, "parent")], r)];
    assert HasEarlierParent(jobs', |jobs|);
    forall i | 1 <= i < |jobs|
      ensures HasEarlierParent(jobs', i)
    {
      assert jobs'[i] == jobs[i];
      assert HasEarlierParent(jobs, i);
    }
  }

  /** The children of one parent of the current level, stopping at 1000
      jobs. */
  method AddChildren(jobs: seq<Job>, parentId: string, ghost p: nat, count: nat, level: nat, next: seq<string>, ghost nextIdx: seq<nat>,
                     rand: Oracle, draw: nat)
    returns (jobs': seq<Job>, next': seq<string>, ghost nextIdx': seq<nat>, draw': nat)
    requires Structured(jobs) && p < |jobs| && parentId == JobId(p) && |jobs| < StructuredSize
    requires LevelKnown(next, nextIdx, |jobs|)
    ensures Structured(jobs') && |jobs| <= |jobs'| <= StructuredSize
    ensures LevelKnown(next', nextIdx', |jobs'|)
  {
    jobs', next', nextIdx', draw' := jobs, next, nextIdx, draw;
    var child := 0;
    while child < count && |jobs'| < StructuredSize
      invariant Structured(jobs') && |jobs| <= |jobs'| <= StructuredSize
      invariant LevelKnown(next', nextIdx', |jobs'|)
    {
      var id := |jobs'|;
      var name := "Level " + NatToString(level) + " Task " + NatToString(id);
      jobs' := AppendChild(jobs', parentId, p, name, rand(draw'));
      draw' := draw' + 1;
      next' := next' + [JobId(id)];
      nextIdx' := nextIdx' + [id];
      child := child + 1;
    }
  }

  /** One level of the level-by-level pass: children for each parent on the
      current level, stopping at 1000 jobs. */
  method AddLevel(jobs: seq<Job>, current: seq<string>, ghost currentIdx: seq<nat>, level: nat, width: int,
                  rand: Oracle, draw: nat)
    returns (jobs': seq<Job>, next: seq<string>, ghost nextIdx: seq<nat>, draw': nat)
    requires Structured(jobs) && |jobs| < StructuredSize
    requires LevelKnown(current, currentIdx, |jobs|)
    ensures Structured(jobs') && |jobs| <= |jobs'| <= StructuredSize
    ensures LevelKnown(next, nextIdx, |jobs'|)
  {
    jobs', next, nextIdx, draw' := jobs, [], [], draw;
    var m := 0;
    while m < |current| && |jobs'| < StructuredSize
      invariant 0 <= m <= |current|
      invariant Structured(jobs') && |jobs| <= |jobs'| <= StructuredSize
      invariant LevelKnown(next, nextIdx, |jobs'|)
    {
      var count := ChildrenCount(rand(draw'), width);
      draw' := draw' + 1;
      jobs', next, nextIdx, draw' := AddChildren(jobs', current[m], currentIdx[m], count, level, next, nextIdx, rand, draw');
      m := m + 1;
    }
  }

  /** `generateStructuredJobDataset(width, depth)` */
  method GenerateStructuredJobDataset(width: int, depth: int, rand: Oracle) returns (jobs: seq<Job>)
    ensures |jobs| == StructuredSize
    ensures jobs[0].name == "Root Task" && jobs[0].dependencies == []
    ensures forall i :: 0 <= i < |jobs| ==> jobs[i].id == JobId(i) && Defaults(jobs[i])
    ensures forall i :: 1 <= i < |jobs| ==> HasEarlierParent(jobs, i)
    ensures forall i, j :: 0 <= i < j < |jobs| ==> jobs[i].id != jobs[j].id
  {
    jobs := [CreateJob(JobId(0), "Root Task", [], rand(0))];
    var draw := 1;
    var current := [JobId(0)];
    ghost var currentIdx: seq<nat> := [0];
    var level := 1;
    while level <= depth && |jobs| < StructuredSize
      invariant Structured(jobs) && |jobs| <= StructuredSize
      invariant LevelKnown(current, currentIdx, |jobs|)
      decreases depth - level
    {
      jobs, current, currentIdx, draw := AddLevel(jobs, current, currentIdx, level, width, rand, draw);
      level := level + 1;
    }
    while |jobs| < StructuredSize
      invariant Structured(jobs) && |jobs| <= StructuredSize
      decreases StructuredSize - |jobs|
    {
      var p := ExtraParentIndex(rand(draw), |jobs|);
      draw := draw + 1;
      var name := "Extra Task " + NatToString(|jobs|);
      jobs := AppendChild(jobs, jobs[p].id, p, name, rand(draw));
      draw := draw + 1;
    }
    assert jobs[..StructuredSize] == jobs;
    jobs := jobs[..StructuredSize];
    forall i, j | 0 <= i < j < |jobs|
      ensures jobs[i].id != jobs[j].id
    {
      JobIdInjective(i, j);
    }
  }
}
