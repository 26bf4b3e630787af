# Job dependency dashboard: data core in Dafny

This project models the data core of a browser dashboard for job dependency graphs. The model covers:

- the flat-node transforms that feed its D3 views: a tree rebuilt from `parent` pointers, a force-graph preparation that resolves link endpoints, and a depth filter;
- the dependency view's `createHierarchy`, which turns a job list into a tree of node objects with a virtual root, and the view's click guard;
- the node-query service, with its level/type/parent filters and the ancestor walk `getNodePath`;
- the two sample-data generators, with `Math.random()` supplied as an oracle;
- the dashboard's job filter;
- the three Redux slices (filters, jobs, auth) as state-transition functions. For the auth slice, `localStorage` is a string map passed in and returned.

Each source file is one module:

| module | file |
|---|---|
| `DataUtils` | `data_utils.dfy` |
| `GraphVisualizer` | `graph_visualizer.dfy` |
| `JobsDataService` | `jobs_data_service.dfy` |
| `SampleData` | `sample_data.dfy` |
| `Dashboard` | `dashboard.dfy` |
| `FilterSlice` | `filter_slice.dfy` |
| `JobsSlice` | `jobs_slice.dfy` |
| `AuthSlice` | `auth_slice.dfy` |

`Common` (`common.dfy`) holds JavaScript's `null` (`Option`), the order-preserving `Array.prototype.filter` and `find`, and the decimal text a template literal gives to a number.

How the model represents the source's behaviour:

- **Non-termination.** Two operations can fail to return:
  - `transformToHierarchy` recurses forever only when it re-enters an id it is already building, which needs a repeated id. Nodes on a cycle of parent pointers are never reached from the top node, so they are simply left out of the tree. Its model returns an explicit `StackOverflow` outcome for re-entry.
  - `getNodePath` loops forever on a cycle. Its model returns an explicit `Hangs` outcome.

  Lemmas then show when these outcomes cannot happen: with unique ids for the first, and with levels that descend along parent pointers for the second.
- **The dependency view's node objects.** In the source these share references. The model keeps them as a map from job id to a node whose `children` are job ids.
- **Dependency entries.** The code reads an entry as a property key. A parent-id string is its own key. A structured `{source, target, type}` edge object becomes the key `"[object Object]"`. Both forms are modelled as the code handles them.

Behaviour worth knowing:

- dependencies are not normalised to one form: a job may carry parent-id strings or structured edges;
- `prepareForceGraphData` keeps dangling links and leaves their raw id as the endpoint;
- in a dataset made by the generators, whose dependencies are structured edges, `createHierarchy` attaches no job under another.

## Model

| member | source | states |
|---|---|---|
| Common.FindFirstIsFirst | src/utils/dataUtils.js:16 | the node `find` returns is the earliest one satisfying the predicate, so the hierarchy's root is the first node whose parent is `null` |
| Common.NatToStringInjective | src/utils/sampleDataGenerator.ts:40 | two numbers with the same decimal text are equal |
| Common.ParseNatToString | src/utils/sampleDataGenerator.ts:40 | reading the decimal text of a number back gives the number |
| DataUtils.Find | src/utils/dataUtils.js:21-22 | a lookup by id succeeds exactly when some node has that id, and yields such a node |
| DataUtils.FindUnique | src/utils/dataUtils.js:21 | when ids are unique, looking up a node's own id yields that node |
| DataUtils.ChildrenOf | src/utils/dataUtils.js:24-25 | the child list is an order-preserving sublist holding exactly the nodes whose parent is the id, each as often as it occurs in the input |
| DataUtils.Build | src/utils/dataUtils.js:20-36 | one recursive call yields `null` exactly when no node has the id; a built tree has that id, copies id, name, type and level from its node, and lists as children exactly the child nodes in input order, with `null` instead of an empty list |
| DataUtils.BuildAll | src/utils/dataUtils.js:24-27 | the children's trees are all well built, and they follow the child nodes one for one, in order |
| DataUtils.TransformToHierarchy | src/utils/dataUtils.js:10-39 | the result is `null` exactly when data, nodes or links is missing or no node is top-level; a returned tree grows from the first top-level node and is well built; a repeated id can instead give the stack-overflow outcome |
| DataUtils.ChainUnique | src/utils/dataUtils.js:20-26 | an id is reached from a top node along at most one chain of parent pointers |
| DataUtils.BuildSound | src/utils/dataUtils.js:20-36 | with unique ids, building below a node reached along a parent chain returns a tree; no id occurs twice in it, and every id in it lies on a parent chain through that node |
| DataUtils.BuildAllSound | src/utils/dataUtils.js:24-27 | with unique ids, the children's trees all return, their ids are distinct, and each lies below one of the children |
| DataUtils.HierarchyOfUniqueIds | src/utils/dataUtils.js:10-39 | with unique node ids the recursion never re-enters an id it is already building, and no id appears twice in the returned tree |
| DataUtils.NodeMap | src/utils/dataUtils.js:52-55 | the map has one entry per distinct node id, and each entry is a node of the input with that id |
| DataUtils.NodeMapKeepsLast | src/utils/dataUtils.js:52-55 | for a repeated id, the node kept is the last one in the input with that id |
| DataUtils.PrepareForceGraphData | src/utils/dataUtils.js:46-67 | missing input gives no nodes and no links; otherwise the nodes are one per distinct id, with later duplicates winning; there are as many links as input links; an id endpoint becomes the node record when its id is known and stays the raw id when it is not; an object endpoint becomes the node kept under the key "[object Object]" when there is one and otherwise stays the same object |
| DataUtils.FilterByMaxDepth | src/utils/dataUtils.js:75-92 | missing input or a negative depth gives an empty graph; otherwise the kept nodes are exactly those whose level is at most the depth, in order and each as often as in the input, and the kept links are exactly those with both endpoint ids among the kept nodes, in order and each as often as in the input; every kept link joins kept nodes |
| DataUtils.FilterIdempotent | src/utils/dataUtils.js:75-92 | filtering an already filtered graph to the same depth changes nothing |
| DataUtils.PrepareClosed | src/utils/dataUtils.js:58-61 | in a graph whose links join its own nodes, preparation resolves every id endpoint to the record of the node it names, and every endpoint to a record |
| DataUtils.PrepareAfterFilter | src/components/JobsVisualization.js:32-35 | filtering by depth and then preparing yields nodes within the depth, the same number of links, and no dangling endpoint |
| JobsDataService.GetNodes | src/services/jobsDataService.js:40-42 | a missing dataset or node list reads as the empty list; otherwise the node list itself |
| JobsDataService.GetLinks | src/services/jobsDataService.js:48-50 | a missing dataset or link list reads as the empty list; otherwise the link list itself |
| JobsDataService.GetNodesByLevel | src/services/jobsDataService.js:57-59 | an order-preserving sublist holding exactly the nodes on the level, each as often as it occurs in the dataset |
| JobsDataService.GetNodesByType | src/services/jobsDataService.js:66-68 | an order-preserving sublist holding exactly the nodes of the type, each as often as it occurs in the dataset |
| JobsDataService.GetChildNodes | src/services/jobsDataService.js:75-77 | an order-preserving sublist holding exactly the nodes with that parent, each as often as it occurs in the dataset; a `null` parent selects the top nodes |
| JobsDataService.ChildNodesAreHierarchyChildren | src/services/jobsDataService.js:75-77 | the service's children of an id are the children the hierarchy transform attaches under it |
| JobsDataService.Walk | src/services/jobsDataService.js:86-92 | an unknown id gives the empty path; a returned path ends with the node found for the id |
| JobsDataService.GetNodePath | src/services/jobsDataService.js:84-95 | an id no node has gives `[]`; a returned non-empty path ends with the node whose id is the argument |
| JobsDataService.WalkWellFormed | src/services/jobsDataService.js:88-92 | a walk that returns lists nodes of the dataset; each names the one before it as parent; the first has no known parent; no visited id repeats |
| JobsDataService.NodePathShape | src/services/jobsDataService.js:84-95 | a returned path holds dataset nodes; each names the previous one as parent; it starts at a node whose parent is `null` or unknown; no id appears twice |
| JobsDataService.WalkEnds | src/services/jobsDataService.js:88-92 | when every parent pointer leads to a lower level, the walk returns |
| JobsDataService.LevelsDescendNoHang | src/services/jobsDataService.js:84-95 | when every parent pointer leads to a lower level, `getNodePath` always returns |
| JobsDataService.PathToTopIsChain | src/services/jobsDataService.js:84-95 | with unique ids, a path that reaches a top node is the parent chain the hierarchy transform follows to that node |
| GraphVisualizer.LastJob | src/components/GraphVisualizer.tsx:29-37 | the job whose name and status the map's entry for an id carries is a job with that id, and no later job in the list has that id, so it is the last job with the id, as later assignments overwrite earlier ones |
| GraphVisualizer.IndexJobs | src/components/GraphVisualizer.tsx:29-37 | the first pass makes one entry per job id; each carries the job's name and status and an empty child list |
| GraphVisualizer.AppendUnder | src/components/GraphVisualizer.tsx:44-48 | the inner loop appends the job under each key in the map, once per dependency entry naming that key; unknown keys are ignored, and the map's keys stay the same |
| GraphVisualizer.AttachJob | src/components/GraphVisualizer.tsx:40-51 | one iteration of the second pass keeps the map and the root list equal to those the reference definition gives for the jobs seen so far |
| GraphVisualizer.CreateHierarchy | src/components/GraphVisualizer.tsx:28-56 | the result is the reference tree: one node per job id, the roots being the jobs without dependencies, and the single root when there is exactly one, else the virtual root over all roots |
| GraphVisualizer.ChildrenAreDependents | src/components/GraphVisualizer.tsx:41-48 | a job id is under a key exactly when some job with that id has a dependency entry naming the key |
| GraphVisualizer.RootsAreIndependent | src/components/GraphVisualizer.tsx:39-42 | an id is in the root list exactly when some job with that id has no dependencies |
| GraphVisualizer.NoDependentsNoChildren | src/components/GraphVisualizer.tsx:44-48 | a key that no job depends on collects no children |
| GraphVisualizer.OrphanDropped | src/components/GraphVisualizer.tsx:41-49 | with unique ids, a job whose dependencies all name unknown ids is neither a root nor a child of any node |
| GraphVisualizer.StructuredDependenciesAttachNothing | src/components/GraphVisualizer.tsx:44-48 | when every dependency is a structured edge object and no job has the id "[object Object]", no node gets children |
| GraphVisualizer.TestJobsTree | src/components/__tests__/GraphVisualizer.test.tsx:6-27 | on the view's test jobs, the returned node is Job 1, with Job 2 as its only child, and Job 2 has no children |
| GraphVisualizer.ClickGuard | src/components/GraphVisualizer.tsx:93-96 | the virtual root is never navigated to; when no job has id "root", every job node opens its own page, and the returned node is clickable exactly when there is a single root |
| SampleData.JobIdInjective | src/utils/sampleDataGenerator.ts:40 | two indices give the same `job-` id exactly when they are equal |
| SampleData.RandomStatus | src/utils/sampleDataGenerator.ts:8 | a drawn status is always one of the four listed statuses |
| SampleData.EveryStatusDrawn | src/utils/sampleDataGenerator.ts:4-8 | each of the four statuses is drawn for some oracle value |
| SampleData.CreateJob | src/utils/sampleDataGenerator.ts:12-21 | a created job has the given id, name and dependencies, a random status, type 'Box', activity set 'defaultActivitySet', and zero wait time and runtime |
| SampleData.ParentWindow | src/utils/sampleDataGenerator.ts:30-50 | a job's parent comes before it, and the children of parent p are exactly jobs 15p+1 to 15p+15, so no node gets more than 15 |
| SampleData.ParentIndexStep | src/utils/sampleDataGenerator.ts:48-50 | the loop's parent counter moves on after job i exactly when i is a multiple of 15 |
| SampleData.CrossStartIsDiv | src/utils/sampleDataGenerator.ts:54 | the cross-edge loop starts at count div 10 |
| SampleData.LargeJobsShape | src/utils/sampleDataGenerator.ts:28-62 | the large dataset has count jobs, or one job when count is below 1; job i has id `job-i`, the name 'Root Task' for i = 0 and `Task i` otherwise, a random status and the fixed defaults; job 0 has no dependencies; every other job has its parent edge, followed by a cross edge exactly when i is visited by the cross loop and exceeds 10 |
| SampleData.GenerateLargeJobDataset | src/utils/sampleDataGenerator.ts:28-62 | the two loops produce exactly the reference dataset; so its length, its ids and names, and each job's parent edge and optional cross edge are as stated above |
| SampleData.AddCrossEdges | src/utils/sampleDataGenerator.ts:54-59 | the second loop turns the tree pass's jobs into the reference dataset |
| SampleData.CrossLoop | src/utils/sampleDataGenerator.ts:54-59 | the loop adds a cross edge from job i to job i div 2 at each visited i above 10, and leaves every other job as it was |
| SampleData.ChildrenCountBounds | src/utils/sampleDataGenerator.ts:86 | the drawn child count is at least 1, and at most `width` when `width` is at least 1; the 1000-job cap can still cut a parent's children short or leave it with none |
| SampleData.ExtraParentIndex | src/utils/sampleDataGenerator.ts:106 | the random parent of an extra job is an existing job, and not the newest once there are two |
| SampleData.AppendChild | src/utils/sampleDataGenerator.ts:88-92 | appending a child keeps the list shape: ids by index, the fixed defaults, and one 'parent' edge from an earlier job |
| SampleData.AddChildren | src/utils/sampleDataGenerator.ts:88-95 | the children of one parent keep the list shape, never exceed 1000 jobs, and add only ids of generated jobs to the next level |
| SampleData.AddLevel | src/utils/sampleDataGenerator.ts:82-102 | one level keeps the list shape, never exceeds 1000 jobs, and builds a next level of generated jobs |
| SampleData.GenerateStructuredJobDataset | src/utils/sampleDataGenerator.ts:70-114 | exactly 1000 jobs; the root is 'Root Task' without dependencies; ids are `job-i` by position and pairwise distinct; every job has the fixed defaults; every non-root job has exactly one 'parent' edge, from a job earlier in the list |
| Dashboard.KeepIsConjunction | src/pages/Dashboard.tsx:25-33 | the chain of rejecting guards keeps a job exactly when it meets every filter taken on its own |
| Dashboard.FilteredJobs | src/pages/Dashboard.tsx:25-33 | the shown jobs are an order-preserving sublist of the jobs, holding exactly those that meet every filter, each as often as it occurs in the list |
| Dashboard.NoFilterKeepsAll | src/pages/Dashboard.tsx:25-33 | under the initial filter state every job is shown |
| Dashboard.ResetShowsAll | src/store/slices/filterSlice.ts:44-46 | after a reset every job is shown, whatever filters were set before |
| Dashboard.FilteredJobsIdempotent | src/pages/Dashboard.tsx:25-33 | filtering the shown jobs again changes nothing |
| Dashboard.ShownJobsMatch | src/pages/Dashboard.tsx:26-31 | a shown job is failed when only failed jobs are asked for; it has an equal field for each set text filter; its times lie within the bounds it has times for, ends included |
| Dashboard.MissingTimeNotExcluded | src/pages/Dashboard.tsx:30-31 | a job without a start (end) time is shown exactly as it would be with no start (end) bound |
| Dashboard.BoundsInclusive | src/pages/Dashboard.tsx:30-31 | a job whose time equals a bound is not hidden by that bound |
| FilterSlice.Initial | src/store/slices/filterSlice.ts:14-23 | the initial filters set no text filter, do not ask for failed jobs only, and bound no time |
| FilterSlice.Reduce | src/store/slices/filterSlice.ts:29-46 | each setter stores its payload in its own part and changes no other part; `setTimeRange` replaces both bounds; the reset yields the initial state |
| FilterSlice.ReduceIdempotent | src/store/slices/filterSlice.ts:29-46 | dispatching any action twice equals dispatching it once; this includes the reset |
| FilterSlice.SettersCommute | src/store/slices/filterSlice.ts:29-43 | setters of different parts may be dispatched in either order |
| FilterSlice.SetterNoChange | src/store/slices/filterSlice.ts:29-43 | a setter that changes the state changes exactly its own part |
| JobsSlice.Initial | src/store/slices/jobsSlice.ts:30-35 | the initial slice has no jobs, no selection, is not loading and has no error |
| JobsSlice.ErrorText | src/store/slices/jobsSlice.ts:70 | a present, non-empty message is kept; an absent or empty one gives the fallback text |
| JobsSlice.Reduce | src/store/slices/jobsSlice.ts:54-83 | `setSelectedJob` changes only the selection; a pending action sets loading, clears the error and keeps jobs and selection; a fulfilled fetch stops loading and installs its payload, leaving the other fields; a rejection stops loading, keeps jobs and selection, and records the message or its default text |
| JobsSlice.ErrorNeverEmpty | src/store/slices/jobsSlice.ts:68-83 | from the initial state, a recorded error is never the empty string |
| JobsSlice.LoadingTracksLastThunk | src/store/slices/jobsSlice.ts:60-83 | after a run of thunk actions, the slice is loading exactly when the last one was a pending action |
| JobsSlice.FailedFetchKeepsJobs | src/store/slices/jobsSlice.ts:60-71 | a fetch that starts and then fails keeps the earlier jobs and selection, and leaves the slice idle with an error |
| JobsSlice.SuccessfulFetchClearsError | src/store/slices/jobsSlice.ts:60-67 | a fetch that starts and then succeeds installs the jobs, leaves the slice idle and clears any earlier error |
| AuthSlice.StoredUserStringify | src/store/slices/authSlice.ts:16-18 | the stored text of a user, or of `null`, reads back as that same user or `null` |
| AuthSlice.GetItem | src/store/slices/authSlice.ts:15 | a stored key reads as its value; an absent key reads as `null` |
| AuthSlice.StoredUser | src/store/slices/authSlice.ts:16-18 | the initial user is `null` exactly when the 'user' entry is absent, empty, or the text "null" that `JSON.parse` reads as `null`; otherwise it is the stored text |
| AuthSlice.InitialState | src/store/slices/authSlice.ts:14-21 | the initial token is the stored 'token' value, or `null` when absent; the user is `null` when 'user' is absent; the state agrees with storage, and it is not loading and has no error |
| AuthSlice.SetCredentials | src/store/slices/authSlice.ts:27-32 | token and user come from the payload, which may hold a `null` user; the token is stored under 'token', and the user's text, or "null" for a `null` user, under 'user'; state and storage agree; every other storage key and `loading`/`error` are unchanged |
| AuthSlice.Logout | src/store/slices/authSlice.ts:33-38 | token and user become `null`; both storage keys are removed; state and storage agree; every other storage key and `loading`/`error` are unchanged |
| AuthSlice.LogoutIdempotent | src/store/slices/authSlice.ts:33-38 | logging out twice is logging out once |
| AuthSlice.ReloadAfterSetCredentials | src/store/slices/authSlice.ts:15-18 | after `setCredentials`, re-deriving the initial state from storage gives back the token and the user, a `null` user included |
| AuthSlice.ReloadAfterLogout | src/store/slices/authSlice.ts:15-18 | after `logout`, re-deriving the initial state from storage starts signed out |
| AuthSlice.RunAgrees | src/store/slices/authSlice.ts:27-38 | any sequence of the two reducers keeps state and storage in agreement, and never changes `loading` or `error` |
| AuthSlice.ReloadMatchesState | src/store/slices/authSlice.ts:14-38 | from a freshly loaded store, after any sequence of the two reducers, what a reload would read equals the state in memory |

## Left out

- D3 layout and rendering are not modelled: the tree, radial, force and Gantt views, including the SVG drawing in `GraphVisualizer.tsx` around `createHierarchy`. They are floating-point layout and foreign library calls.
- Network and I/O are not modelled: `fetchJobsData`, the API module and the bodies of the two async thunks. Each thunk outcome enters the model as an action value.
- UI, routing, the auth screens, `FilterPanel` and the store setup are not modelled.
- `new Date(...)` is not modelled. Job times and filter bounds are integer timestamps. An empty-string bound is falsy and is represented as an absent one. Invalid dates, which compare as NaN, are not represented.
- `JSON.parse`/`JSON.stringify` are not modelled beyond the text "null". A user object is the non-empty JSON text it is stored as, which is never "null". A parse of malformed text, which would throw, is not represented.
- AuthSlice.SetCredentials: a payload user of `undefined` is not modelled. Storing it would write the text "undefined", which a reload cannot parse.
- Math.random's distribution is not modelled. The generators take an oracle whose n-th value in [0,1) is the n-th draw. Only the shape properties are stated.
- Real arithmetic stands in for floating point in `Math.floor(count * 0.1)`, `Math.random() * width + 1` and `Math.random() * (jobs.length - 1)`. For every count the first loop can finish with, the double rounding of `count * 0.1` does not move its floor, because that loop fills an array, whose length is below 2^32. Much larger counts (6879907200157949, for one) would make the floor one more than count div 10.
- SampleData.GenerateLargeJobDataset: `count` is an integer. A fractional count is not modelled.
- SampleData.GenerateStructuredJobDataset: `width` and `depth` are integers. Fractional arguments are not modelled.
- DataUtils.PrepareForceGraphData: the prepared nodes are a map from id to node. The order `Object.values` gives them, which puts integer-like keys first, is not stated.
- DataUtils.TransformToHierarchy: endless recursion is the outcome `StackOverflow`, not a thrown `RangeError` after some finite depth. A finite parent chain deeper than the JavaScript call stack also throws `RangeError`, since `buildHierarchy` recurses once per level. The model has no stack bound and returns a tree there.
- DataUtils.TransformToHierarchy: a node without a `parent` key is not represented. `parent` is either `null` or an id. In the source such a node is never the root, because the test is `=== null`.
- JobsDataService.GetChildNodes: a node without a `parent` key is not represented, and neither is a call without an argument. In the source, `getChildNodes()` selects exactly the nodes lacking the key.
- DataUtils.PrepareForceGraphData: an unknown endpoint that names an inherited property of `Object.prototype`, such as "constructor" or "toString", is not modelled. In the source it reads an inherited function from `nodeMap`, and the link holds that function instead of the raw id. The model treats every id as an own key.
- DataUtils.PrepareForceGraphData: a node id "__proto__" is not modelled. In the source it replaces the map's prototype instead of adding an entry, so that node is missing from `Object.values`.
- JobsDataService.GetNodePath: a cycle of parent pointers is the outcome `Hangs`, not a loop that never ends.
- GraphVisualizer.CreateHierarchy: a dependency key that names an inherited property of `Object.prototype`, such as "constructor", reads as present in `jobMap` in the source. The source then writes a `children` list onto that inherited value. The result is the same, and that side effect is not modelled.
- GraphVisualizer.CreateHierarchy: children are held as job ids into the map, not as shared node objects. The `_children` field, which the function never sets, is not modelled.
- SampleData.GenerateStructuredJobDataset: the contract does not state which earlier job is each job's parent, or which level it sits on. It states that every non-root job has exactly one parent edge, from an earlier job.
