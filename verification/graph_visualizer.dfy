/** `createHierarchy` of the dependency view: the job list turned into the
    tree the view lays out, and the guard on clicking one of its nodes. */
module GraphVisualizer {
  import opened Common
  import opened JobsSlice

  /** A node of the view's tree. The source builds one node object per job id
      and links the objects to each other, so a child is recorded here by the
      id of the node object it refers to. */
  datatype D3Node = D3Node(id: string, name: string, status: string, children: seq<string>)

  /** The node objects by job id, and the node the function returns. */
  datatype JobTree = JobTree(index: map<string, D3Node>, top: D3Node)

  const VirtualRootId: string := "root"

  /** The property key a dependency entry reads in `jobMap`: a parent-id
      string is its own key, an object turns into "[object Object]". */
  function DepKey(d: Dependency): string
  {
    match d
    case ParentRef(p) => p
    case Edge(_, _, _) => ObjectKey
  }

  function JobIds(jobs: seq<Job>): set<string>
  {
    set j | j in jobs :: j.id
  }

  function JobIdSeq(jobs: seq<Job>): (r: seq<string>)
    ensures |r| == |jobs|
    ensures forall k :: 0 <= k < |jobs| ==> r[k] == jobs[k].id
  {
    seq(|jobs|, k requires 0 <= k < |jobs| => jobs[k].id)
  }

  /** The last job with the given id: its node object is the one left in the
      map, because later jobs overwrite earlier ones. */
  function LastJob(jobs: seq<Job>, id: string): (j: Job)
    requires id in JobIds(jobs)
    ensures j in jobs && j.id == id
    ensures jobs[|jobs| - 1].id == id ==> j == jobs[|jobs| - 1]
    ensures exists i :: 0 <= i < |jobs| && jobs[i] == j && forall k :: i < k < |jobs| ==> jobs[k].id != id
    decreases |jobs|
  {
    var last := jobs[|jobs| - 1];
    if last.id == id then last
    else
      var init := jobs[..|jobs| - 1];
      assert jobs == init + [last];
      var j := LastJob(init, id);
      var i :| 0 <= i < |init| && init[i] == j && forall k :: i < k < |init| ==> init[k].id != id;
      assert jobs[i] == j && forall k :: i < k < |jobs| ==> jobs[k].id != id;
      j
  }

  /** How many entries of `deps` read the key `k`. */
  function Occ(k: string, deps: seq<Dependency>): nat
  {
    if |deps| == 0 then 0
    else Occ(k, deps[..|deps| - 1]) + (if DepKey(deps[|deps| - 1]) == k then 1 else 0)
  }

  function Repeat(x: string, n: nat): (r: seq<string>)
    ensures |r| == n
    ensures forall k :: 0 <= k < n ==> r[k] == x
  {
    if n == 0 then [] else Repeat(x, n - 1) + [x]
  }

  /** Reference definition of the children recorded under key `k`: in job
      order, each job that has dependencies, once per entry naming `k`. */
  function AttachedUnder(jobs: seq<Job>, k: string): seq<string>
  {
    if |jobs| == 0 then []
    else
      var last := jobs[|jobs| - 1];
      AttachedUnder(jobs[..|jobs| - 1], k)
        + (if |last.dependencies| == 0 then [] else Repeat(last.id, Occ(k, last.dependencies)))
  }

  function NoDependencies(): Job -> bool
  {
    (j: Job) => |j.dependencies| == 0
  }

  /** Reference definition of the root list: the jobs without dependencies,
      in order. */
  function RootIds(jobs: seq<Job>): seq<string>
  {
    JobIdSeq(Filter(NoDependencies(), jobs))
  }

  /** The node object of job id `id` with the given children. */
  function NodeOf(jobs: seq<Job>, id: string, children: seq<string>): D3Node
    requires id in JobIds(jobs)
  {
    D3Node(id, LastJob(jobs, id).name, LastJob(jobs, id).status, children)
  }

  /** The virtual root put above several (or no) roots. */
  function VirtualRoot(roots: seq<string>): D3Node
  {
    D3Node(VirtualRootId, "All Jobs", "completed", roots)
  }

  /** Reference definition of the whole result. */
  function Hierarchy(jobs: seq<Job>): JobTree
  {
    var index := map id | id in JobIds(jobs) :: NodeOf(jobs, id, AttachedUnder(jobs, id));
    var roots := RootIds(jobs);
    JobTree(index, if |roots| == 1 then index[roots[0]] else VirtualRoot(roots))
  }

  lemma JobIdsSnoc(jobs: seq<Job>, j: Job)
    ensures JobIds(jobs + [j]) == JobIds(jobs) + {j.id}
  {
    assert forall x :: x in jobs + [j] <==> x in jobs || x == j;
  }

  lemma LastJobSnoc(jobs: seq<Job>, j: Job, id: string)
    requires id in JobIds(jobs + [j])
    ensures id == j.id ==> LastJob(jobs + [j], id) == j
    ensures id != j.id ==> id in JobIds(jobs) && LastJob(jobs + [j], id) == LastJob(jobs, id)
  {
    JobIdsSnoc(jobs, j);
    assert (jobs + [j])[..|jobs|] == jobs;
  }

  lemma OccSnoc(k: string, deps: seq<Dependency>, j: int)
    requires 0 <= j < |deps|
    ensures Occ(k, deps[..j + 1]) == Occ(k, deps[..j]) + (if DepKey(deps[j]) == k then 1 else 0)
  {
    assert deps[..j + 1][..j] == deps[..j];
  }

  lemma AttachedSnoc(jobs: seq<Job>, i: int, k: string)
    requires 0 <= i < |jobs|
    ensures AttachedUnder(jobs[..i + 1], k)
            == AttachedUnder(jobs[..i], k)
               + (if |jobs[i].dependencies| == 0 then [] else Repeat(jobs[i].id, Occ(k, jobs[i].dependencies)))
  {
    assert jobs[..i + 1][..i] == jobs[..i];
  }

  lemma RootIdsSnoc(jobs: seq<Job>, i: int)
    requires 0 <= i < |jobs|
    ensures RootIds(jobs[..i + 1]) == RootIds(jobs[..i]) + (if |jobs[i].dependencies| == 0 then [jobs[i].id] else [])
  {
    assert jobs[..i + 1] == jobs[..i] + [jobs[i]];
    FilterSnoc(NoDependencies(), jobs[..i], jobs[i]);
  }

  /** The first pass: one node object per job id with no children yet; a
      later job of the same id replaces the earlier one's object. */
  method IndexJobs(jobs: seq<Job>) returns (index: map<string, D3Node>)
    ensures index.Keys == JobIds(jobs)
    ensures forall id :: id in index ==> index[id] == NodeOf(jobs, id, [])
  {
    index := map[];
    var i := 0;
    while i < |jobs|
      invariant 0 <= i <= |jobs|
      invariant index.Keys == JobIds(jobs[..i])
      invariant forall id :: id in index ==> index[id] == NodeOf(jobs[..i], id, [])
    {
      var job := jobs[i];
      assert jobs[..i + 1] == jobs[..i] + [job];
      JobIdsSnoc(jobs[..i], job);
      forall id | id in JobIds(jobs[..i + 1])
        ensures LastJob(jobs[..i + 1], id) == if id == job.id then job else LastJob(jobs[..i], id)
      {
        LastJobSnoc(jobs[..i], job, id);
      }
      index := index[job.id := D3Node(job.id, job.name, job.status, [])];
      i := i + 1;
    }
    assert jobs[..|jobs|] == jobs;
  }

  /** One iteration of the inner loop, for entry `j`. */
  lemma AppendUnderStep(index: map<string, D3Node>, cur: map<string, D3Node>, childId: string, deps: seq<Dependency>, j: int)
    requires 0 <= j < |deps| && cur.Keys == index.Keys
    requires forall id :: id in index ==>
               cur[id] == index[id].(children := index[id].children + Repeat(childId, Occ(id, deps[..j])))
    ensures var key := DepKey(deps[j]);
            var next := if key in cur then cur[key := cur[key].(children := cur[key].children + [childId])] else cur;
            && next.Keys == index.Keys
            && forall id :: id in index ==>
                 next[id] == index[id].(children := index[id].children + Repeat(childId, Occ(id, deps[..j + 1])))
  {
    forall id | id in index
      ensures Occ(id, deps[..j + 1]) == Occ(id, deps[..j]) + (if DepKey(deps[j]) == id then 1 else 0)
    {
      OccSnoc(id, deps, j);
    }
  }

  /** The inner loop of the second pass: the node object `childId` is appended
      to the children of the node each entry of `deps` names, when that key is
      in the map; entries naming no node are skipped. */
  method AppendUnder(index: map<string, D3Node>, childId: string, deps: seq<Dependency>)
    returns (index': map<string, D3Node>)
    ensures index'.Keys == index.Keys
    ensures forall id :: id in index ==>
              index'[id] == index[id].(children := index[id].children + Repeat(childId, Occ(id, deps)))
  {
    index' := index;
    var j := 0;
    while j < |deps|
      invariant 0 <= j <= |deps|
      invariant index'.Keys == index.Keys
      invariant forall id :: id in index ==>
                  index'[id] == index[id].(children := index[id].children + Repeat(childId, Occ(id, deps[..j])))
    {
      var key := DepKey(deps[j]);
      AppendUnderStep(index, index', childId, deps, j);
      if key in index' {
        index' := index'[key := index'[key].(children := index'[key].children + [childId])];
      }
      j := j + 1;
    }
    assert deps[..|deps|] == deps;
  }

  /** The state of the second pass after the first `i` jobs: every node
      object holds the children the reference definition gives for those
      jobs, and the roots found so far are theirs. */
  predicate AfterJobs(jobs: seq<Job>, i: int, index: map<string, D3Node>, roots: seq<string>)
    requires 0 <= i <= |jobs|
  {
    && index.Keys == JobIds(jobs)
    && (forall id :: id in index ==> index[id] == NodeOf(jobs, id, AttachedUnder(jobs[..i], id)))
    && roots == RootIds(jobs[..i])
  }

  /** One iteration of the second pass, for job `i`. */
  method AttachJob(jobs: seq<Job>, i: int, index: map<string, D3Node>, roots: seq<string>)
    returns (index': map<string, D3Node>, roots': seq<string>)
    requires 0 <= i < |jobs| && AfterJobs(jobs, i, index, roots)
    ensures AfterJobs(jobs, i + 1, index', roots')
  {
    var job := jobs[i];
    RootIdsSnoc(jobs, i);
    if |job.dependencies| == 0 {
      index', roots' := index, roots + [job.id];
    } else {
      index' := AppendUnder(index, job.id, job.dependencies);
      roots' := roots;
    }
    forall id | id in index'
      ensures index'[id] == NodeOf(jobs, id, AttachedUnder(jobs[..i + 1], id))
    {
      AttachedSnoc(jobs, i, id);
    }
  }

  /** After the last job the map and the roots are the reference ones. */
  lemma AfterAllJobs(jobs: seq<Job>, index: map<string, D3Node>, roots: seq<string>)
    requires AfterJobs(jobs, |jobs|, index, roots)
    ensures index == Hierarchy(jobs).index && roots == RootIds(jobs)
  {
    assert jobs[..|jobs|] == jobs;
  }

  /** `createHierarchy(jobs)`: one node object per job id, then each job
      either becomes a root or is appended under each known dependency key. */
  method CreateHierarchy(jobs: seq<Job>) returns (t: JobTree, roots: seq<string>)
    ensures t == Hierarchy(jobs)
    ensures roots == RootIds(jobs)
    ensures t.index.Keys == JobIds(jobs)
    ensures |roots| == 1 ==> t.top == t.index[roots[0]]
    ensures |roots| != 1 ==> t.top == VirtualRoot(roots)
  {
    var index := IndexJobs(jobs);
    roots := [];
    var i := 0;
    assert jobs[..0] == [];
    while i < |jobs|
      invariant 0 <= i <= |jobs|
      invariant AfterJobs(jobs, i, index, roots)
    {
      index, roots := AttachJob(jobs, i, index, roots);
      i := i + 1;
    }
    AfterAllJobs(jobs, index, roots);
    t := JobTree(index, if |roots| == 1 then index[roots[0]] else VirtualRoot(roots));
  }

  // ---------------------------------------------------------------------
  // What the result means

  /** Some dependency entry of `j` reads the key `k`. */
  predicate DependsOn(j: Job, k: string)
  {
    exists d :: d in j.dependencies && DepKey(d) == k
  }

  lemma {:induction false} OccPositive(k: string, deps: seq<Dependency>)
    ensures Occ(k, deps) > 0 <==> exists d :: d in deps && DepKey(d) == k
  {
    if |deps| > 0 {
      var init := deps[..|deps| - 1];
      var last := deps[|deps| - 1];
      OccPositive(k, init);
      assert deps == init + [last];
      if exists d :: d in deps && DepKey(d) == k {
        var d :| d in deps && DepKey(d) == k;
        if d != last {
          assert d in init;
        }
      }
      if exists d :: d in init && DepKey(d) == k {
        var d :| d in init && DepKey(d) == k;
        assert d in deps;
      }
    }
  }

  /** A job is listed under a key exactly when it is one of the jobs with that
      id and some dependency entry of it reads that key. */
  lemma {:induction false} ChildrenAreDependents(jobs: seq<Job>, k: string, x: string)
    ensures x in AttachedUnder(jobs, k) <==> exists j :: j in jobs && j.id == x && DependsOn(j, k)
  {
    if |jobs| > 0 {
      var init := jobs[..|jobs| - 1];
      ChildrenAreDependents(init, k, x);
      AttachedStep(jobs, k, x);
      DependentStep(jobs, k, x);
    }
  }

  /** A job of the list with id `x` depending on `k` is the last job or one
      before it. */
  lemma DependentStep(jobs: seq<Job>, k: string, x: string)
    requires |jobs| > 0
    ensures var last := jobs[|jobs| - 1];
            (exists j :: j in jobs && j.id == x && DependsOn(j, k))
            <==> (exists j :: j in jobs[..|jobs| - 1] && j.id == x && DependsOn(j, k)) || (x == last.id && DependsOn(last, k))
  {
    var init := jobs[..|jobs| - 1];
    var last := jobs[|jobs| - 1];
    assert jobs == init + [last];
    if exists j :: j in jobs && j.id == x && DependsOn(j, k) {
      var j :| j in jobs && j.id == x && DependsOn(j, k);
      if j != last {
        assert j in init;
      }
    }
    if exists j :: j in init && j.id == x && DependsOn(j, k) {
      var j :| j in init && j.id == x && DependsOn(j, k);
      assert j in jobs;
    }
    assert last in jobs;
  }

  /** The last job adds itself under `k` exactly when it depends on `k`. */
  lemma AttachedStep(jobs: seq<Job>, k: string, x: string)
    requires |jobs| > 0
    ensures var last := jobs[|jobs| - 1];
            x in AttachedUnder(jobs, k)
            <==> x in AttachedUnder(jobs[..|jobs| - 1], k) || (x == last.id && DependsOn(last, k))
  {
    var last := jobs[|jobs| - 1];
    OccPositive(k, last.dependencies);
    if DependsOn(last, k) {
      assert |last.dependencies| > 0;
      assert Repeat(last.id, Occ(k, last.dependencies))[0] == last.id;
    }
  }

  /** The root list holds exactly the ids of the jobs without dependencies. */
  lemma RootsAreIndependent(jobs: seq<Job>, x: string)
    ensures x in RootIds(jobs) <==> exists j :: j in jobs && j.id == x && |j.dependencies| == 0
  {
    var f := Filter(NoDependencies(), jobs);
    if x in RootIds(jobs) {
      var k :| 0 <= k < |f| && RootIds(jobs)[k] == x;
      assert f[k] in f;
    }
    if exists j :: j in jobs && j.id == x && |j.dependencies| == 0 {
      var j :| j in jobs && j.id == x && |j.dependencies| == 0;
      assert j in f;
      var k :| 0 <= k < |f| && f[k] == j;
      assert RootIds(jobs)[k] == x;
    }
  }

  predicate UniqueJobIds(jobs: seq<Job>)
  {
    forall i, j :: 0 <= i < j < |jobs| ==> jobs[i].id != jobs[j].id
  }

  /** A key no job depends on collects no children. */
  lemma {:induction false} NoDependentsNoChildren(jobs: seq<Job>, k: string)
    requires forall j :: j in jobs ==> !DependsOn(j, k)
    ensures AttachedUnder(jobs, k) == []
  {
    if |jobs| > 0 {
      var init := jobs[..|jobs| - 1];
      var last := jobs[|jobs| - 1];
      assert jobs == init + [last];
      assert last in jobs;
      NoDependentsNoChildren(init, k);
      OccPositive(k, last.dependencies);
      assert Occ(k, last.dependencies) == 0;
    }
  }

  /** With unique ids, a job is determined by its id. */
  lemma SameIdSameJob(jobs: seq<Job>, a: Job, b: Job)
    requires UniqueJobIds(jobs) && a in jobs && b in jobs && a.id == b.id
    ensures a == b
  {
    var p :| 0 <= p < |jobs| && jobs[p] == a;
    var q :| 0 <= q < |jobs| && jobs[q] == b;
    assert !(p < q) && !(q < p);
  }

  /** With unique ids, a job whose dependencies all name unknown ids is neither
      a root nor anyone's child: it is dropped from the view. */
  lemma OrphanDropped(jobs: seq<Job>, job: Job)
    requires UniqueJobIds(jobs)
    requires job in jobs && |job.dependencies| > 0
    requires forall d :: d in job.dependencies ==> DepKey(d) !in JobIds(jobs)
    ensures job.id !in RootIds(jobs)
    ensures forall k :: k in Hierarchy(jobs).index ==> job.id !in Hierarchy(jobs).index[k].children
  {
    forall j | j in jobs && j.id == job.id
      ensures j == job
    {
      SameIdSameJob(jobs, j, job);
    }
    RootsAreIndependent(jobs, job.id);
    forall k | k in Hierarchy(jobs).index
      ensures job.id !in Hierarchy(jobs).index[k].children
    {
      assert !DependsOn(job, k);
      ChildrenAreDependents(jobs, k, job.id);
    }
  }

  /** Jobs whose dependencies are the declared `{source, target, type}`
      objects are never attached under a job (unless some job's id is
      "[object Object]"): every node object keeps an empty child list. */
  lemma StructuredDependenciesAttachNothing(jobs: seq<Job>)
    requires forall j, d :: j in jobs && d in j.dependencies ==> d.Edge?
    requires ObjectKey !in JobIds(jobs)
    ensures forall k :: k in Hierarchy(jobs).index ==> Hierarchy(jobs).index[k].children == []
  {
    forall k | k in Hierarchy(jobs).index
      ensures AttachedUnder(jobs, k) == []
    {
      forall j | j in jobs
        ensures !DependsOn(j, k)
      {
        forall d | d in j.dependencies
          ensures DepKey(d) != k
        {
          assert d.Edge?;
          assert DepKey(d) == ObjectKey;
        }
      }
      NoDependentsNoChildren(jobs, k);
    }
  }

  /** A job of the view's test data, which sets the activity set "Daily" and
      gives no `type`, start or end time (an empty type and no times here). */
  function TestJob(id: string, name: string, status: string, componentType: string,
                   maxWaitTime: int, runtime: int, deps: seq<Dependency>): Job
  {
    Job(id, name, status, "", "Daily", Some(componentType), maxWaitTime, runtime, deps, None, None)
  }

  /** On the test data the single root, job 1, is returned, with job 2 as
      its only child and no child below job 2. */
  lemma TestJobsTree()
    ensures var jobs := [TestJob("1", "Job 1", "completed", "Extract", 120, 300, []),
                         TestJob("2", "Job 2", "failed", "Transform", 60, 240, [ParentRef("1")])];
            var t := Hierarchy(jobs);
            && t.top.id == "1" && t.top.name == "Job 1" && t.top.children == ["2"]
            && "2" in t.index && t.index["2"].children == []
  {
    var j1 := TestJob("1", "Job 1", "completed", "Extract", 120, 300, []);
    var j2 := TestJob("2", "Job 2", "failed", "Transform", 60, 240, [ParentRef("1")]);
    var jobs := [j1, j2];
    assert jobs[..1] == [j1] && [j1][..0] == [];
    assert JobIds(jobs) == {"1", "2"};
    assert [j2][1..] == [] && jobs[1..] == [j2];
    assert Filter(NoDependencies(), [j2]) == Filter(NoDependencies(), []) == [];
    assert Filter(NoDependencies(), jobs) == [j1] + Filter(NoDependencies(), [j2]) == [j1];
    assert [ParentRef("1")][..0] == [];
    assert Occ("1", [ParentRef("1")]) == 1;
    assert Occ("2", [ParentRef("1")]) == 0;
    assert Repeat("2", 1) == ["2"];
    assert AttachedUnder([j1], "1") == [] && AttachedUnder([j1], "2") == [];
    assert AttachedUnder(jobs, "1") == AttachedUnder([j1], "1") + Repeat("2", Occ("1", [ParentRef("1")])) == ["2"];
    assert AttachedUnder(jobs, "2") == AttachedUnder([j1], "2") + Repeat("2", Occ("2", [ParentRef("1")])) == [];
  }

  /** The route a click on node `n` opens, if any: every node but the one
      with id "root" opens its job page. */
  function ClickTarget(n: D3Node): (r: Option<string>)
  {
    if n.id != VirtualRootId then Some("/jobs/" + n.id) else None
  }

  /** The virtual root is never navigated to; when no job is named "root",
      every job node is, and the returned node is exactly when it is a
      job. */
  lemma ClickGuard(jobs: seq<Job>)
    ensures |RootIds(jobs)| != 1 ==> ClickTarget(Hierarchy(jobs).top).None?
    ensures VirtualRootId !in JobIds(jobs) ==>
              && (forall k :: k in Hierarchy(jobs).index ==> ClickTarget(Hierarchy(jobs).index[k]) == Some("/jobs/" + k))
              && (ClickTarget(Hierarchy(jobs).top).Some? <==> |RootIds(jobs)| == 1)
  {
    var roots := RootIds(jobs);
    if |roots| == 1 {
      RootsAreIndependent(jobs, roots[0]);
    }
  }
}
