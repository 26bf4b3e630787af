/** The flat-node-to-graph transforms of `src/utils/dataUtils.js`: rebuilding a
    tree from `parent` pointers, resolving link endpoints for a force layout,
    and cutting a dataset down to a maximum level. */
module DataUtils {
  import opened Common

  /** A node of the flat dataset; `parent` is `null` for a top node. A node
      without a `parent` key is not represented. */
  datatype FlatNode = FlatNode(id: string, name: string, nodeType: string, level: int, parent: Option<string>)

  /** A link endpoint: a raw node id, or a node record put there by an
      earlier resolution. */
  datatype Endpoint = Ref(ref: string) | Record(node: FlatNode)

  /** `typeof e === 'object' ? e.id : e` */
  function EndpointId(e: Endpoint): string
  {
    match e
    case Ref(x) => x
    case Record(n) => n.id
  }

  datatype Link = Link(source: Endpoint, target: Endpoint, linkType: Option<string>)

  /** The `{nodes, links}` object; either list may be missing. */
  datatype Dataset = Dataset(nodes: Option<seq<FlatNode>>, links: Option<seq<Link>>)

  /** `data && data.nodes && data.links` */
  predicate Present(data: Option<Dataset>)
  {
    data.Some? && data.value.nodes.Some? && data.value.links.Some?
  }

  function NodeIds(nodes: seq<FlatNode>): set<string>
  {
    set n | n in nodes :: n.id
  }

  predicate UniqueIds(nodes: seq<FlatNode>)
  {
    forall i, j :: 0 <= i < j < |nodes| ==> nodes[i].id != nodes[j].id
  }

  function HasId(id: string): FlatNode -> bool
  {
    (n: FlatNode) => n.id == id
  }

  function HasParent(id: string): FlatNode -> bool
  {
    (n: FlatNode) => n.parent == Some(id)
  }

  function IsTop(): FlatNode -> bool
  {
    (n: FlatNode) => n.parent.None?
  }

  /** `nodes.find(n => n.id === id)` */
  function Find(nodes: seq<FlatNode>, id: string): (r: Option<FlatNode>)
    ensures r.Some? ==> r.value in nodes && r.value.id == id
    ensures r.None? <==> id !in NodeIds(nodes)
  {
    FindFirst(HasId(id), nodes)
  }

  /** With unique ids, looking a node up by its own id finds that node. */
  lemma FindUnique(nodes: seq<FlatNode>, n: FlatNode)
    requires UniqueIds(nodes)
    requires n in nodes
    ensures Find(nodes, n.id) == Some(n)
  {
    var r := Find(nodes, n.id).value;
    var i :| 0 <= i < |nodes| && nodes[i] == r;
    var k :| 0 <= k < |nodes| && nodes[k] == n;
    assert nodes[i].id == nodes[k].id;
  }

  /** `nodes.filter(n => n.parent === id)` */
  function ChildrenOf(nodes: seq<FlatNode>, id: string): (r: seq<FlatNode>)
    ensures forall n :: n in r <==> n in nodes && n.parent == Some(id)
    ensures forall n :: multiset(r)[n] == if n.parent == Some(id) then multiset(nodes)[n] else 0
    ensures IsSubsequence(r, nodes)
  {
    FilterCount(HasParent(id), nodes);
    Filter(HasParent(id), nodes)
  }

  /** The ids of `ns`, in order. */
  function NodeIdSeq(ns: seq<FlatNode>): (r: seq<string>)
    ensures |r| == |ns|
    ensures forall k :: 0 <= k < |ns| ==> r[k] == ns[k].id
  {
    if |ns| == 0 then []
    else
      var rest := NodeIdSeq(ns[1..]);
      assert forall k :: 1 <= k < |ns| ==> ns[k] == ns[1..][k - 1];
      [ns[0].id] + rest
  }

  // ---------------------------------------------------------------------
  // transformToHierarchy

  /** A node of the hierarchical result. */
  datatype Tree = Tree(id: string, name: string, nodeType: string, level: int, children: Children)

  /** The `children` field: `null` for a leaf, otherwise a non-empty list. */
  datatype Children = Null | List(trees: seq<Tree>)

  /** The outcome of one `buildHierarchy(nodeId)` call: `null`, a tree, or a
      call that never returns because it re-enters an id it is already
      building (the JavaScript engine ends that recursion with a stack
      overflow). */
  datatype Built = Missing | Node(tree: Tree) | Diverges

  /** What `transformToHierarchy` yields: `null`, a tree, or the stack
      overflow of a recursion that re-enters an id. */
  datatype Hierarchy = NoHierarchy | Rooted(root: Tree) | StackOverflow

  function TreeIdSeq(ts: seq<Tree>): seq<string>
  {
    if |ts| == 0 then [] else [ts[0].id] + TreeIdSeq(ts[1..])
  }

  /** The tree node `t` carries the fields of the node `n` it was built from. */
  predicate CopiesFields(t: Tree, n: FlatNode)
  {
    t.id == n.id && t.name == n.name && t.nodeType == n.nodeType && t.level == n.level
  }

  /** `t` is the tree the parent pointers of `nodes` describe below `t.id`:
      its fields come from the node with that id, and its children are,
      in order, the trees of exactly the nodes naming it as parent,
      with `null` rather than an empty list for a leaf. */
  ghost predicate WellBuilt(nodes: seq<FlatNode>, t: Tree)
    decreases t
  {
    && Find(nodes, t.id).Some?
    && CopiesFields(t, Find(nodes, t.id).value)
    && match t.children
       case Null => ChildrenOf(nodes, t.id) == []
       case List(cs) =>
         && cs != []
         && TreeIdSeq(cs) == NodeIdSeq(ChildrenOf(nodes, t.id))
         && forall c :: c in cs ==> WellBuilt(nodes, c)
  }

  lemma RemoveOne(all: set<string>, visited: set<string>, x: string)
    requires x in all && x !in visited
    ensures |all - (visited + {x})| < |all - visited|
  {
    assert all - visited == (all - (visited + {x})) + {x};
  }

  /** `buildHierarchy(id)`, where `visited` holds the ids of the calls
      still on the stack. */
  function Build(nodes: seq<FlatNode>, id: string, visited: set<string>): (r: Built)
    ensures r.Missing? <==> Find(nodes, id).None?
    ensures r.Node? ==> r.tree.id == id && WellBuilt(nodes, r.tree)
    decreases |NodeIds(nodes) - visited|, 0
  {
    match Find(nodes, id)
    case None => Missing
    case Some(n) =>
      if id in visited then Diverges
      else
        RemoveOne(NodeIds(nodes), visited, id);
        var kids := ChildrenOf(nodes, id);
        match BuildAll(nodes, kids, visited + {id})
        case None => Diverges
        case Some(ts) =>
          Node(Tree(n.id, n.name, n.nodeType, n.level, if |ts| > 0 then List(ts) else Null))
  }

  /** `kids.map(c => buildHierarchy(c.id)).filter(Boolean)`; `None` when one
      of the calls never returns. */
  function BuildAll(nodes: seq<FlatNode>, kids: seq<FlatNode>, visited: set<string>): (r: Option<seq<Tree>>)
    ensures r.Some? ==> forall t :: t in r.value ==> WellBuilt(nodes, t)
    ensures r.Some? && (forall k :: k in kids ==> k in nodes) ==> TreeIdSeq(r.value) == NodeIdSeq(kids)
    decreases |NodeIds(nodes) - visited|, 1 + |kids|
  {
    if |kids| == 0 then Some([])
    else
      match Build(nodes, kids[0].id, visited)
      case Diverges => None
      case Missing => BuildAll(nodes, kids[1..], visited)
      case Node(t) =>
        match BuildAll(nodes, kids[1..], visited)
        case None => None
        case Some(ts) =>
          assert ([t] + ts)[1..] == ts;
          Some([t] + ts)
  }

  /** `transformToHierarchy(data)` */
  function TransformToHierarchy(data: Option<Dataset>): (r: Hierarchy)
    ensures r.NoHierarchy? <==> !Present(data) || FindFirst(IsTop(), data.value.nodes.value).None?
    ensures r.Rooted? ==>
              && r.root.id == FindFirst(IsTop(), data.value.nodes.value).value.id
              && WellBuilt(data.value.nodes.value, r.root)
  {
    if !Present(data) then NoHierarchy
    else
      var nodes := data.value.nodes.value;
      match FindFirst(IsTop(), nodes)
      case None => NoHierarchy
      case Some(top) =>
        match Build(nodes, top.id, {})
        case Missing => NoHierarchy
        case Node(t) => Rooted(t)
        case Diverges => StackOverflow
  }

  // ---------------------------------------------------------------------
  // With unique ids the recursion ends and no node appears twice.

  /** The ids of a tree in preorder. */
  function TreeIds(t: Tree): seq<string>
    decreases t
  {
    [t.id] + match t.children
             case Null => []
             case List(cs) => ForestIds(cs)
  }

  function ForestIds(ts: seq<Tree>): seq<string>
    decreases ts
  {
    if |ts| == 0 then [] else TreeIds(ts[0]) + ForestIds(ts[1..])
  }

  predicate Distinct(s: seq<string>)
  {
    forall i, j :: 0 <= i < j < |s| ==> s[i] != s[j]
  }

  function SetOf(s: seq<string>): set<string>
  {
    set x | x in s
  }

  lemma SetOfSnoc(p: seq<string>, x: string)
    ensures SetOf(p + [x]) == SetOf(p) + {x}
  {
  }

  /** The node with id `child` names `parent` as its parent. */
  ghost predicate ParentLink(nodes: seq<FlatNode>, child: string, parent: string)
  {
    Find(nodes, child).Some? && Find(nodes, child).value.parent == Some(parent)
  }

  /** `s` is a parent chain: it starts at a node without parent and each
      later id names a node whose parent is the id before it. */
  ghost predicate IsChain(nodes: seq<FlatNode>, s: seq<string>)
  {
    && |s| >= 1
    && Find(nodes, s[0]).Some?
    && Find(nodes, s[0]).value.parent.None?
    && forall k {:trigger ParentLink(nodes, s[k], s[k - 1])} :: 1 <= k < |s| ==> ParentLink(nodes, s[k], s[k - 1])
  }

  /** Every non-empty prefix of a parent chain is a parent chain. */
  lemma ChainPrefix(nodes: seq<FlatNode>, s: seq<string>, k: int)
    requires IsChain(nodes, s) && 1 <= k <= |s|
    ensures IsChain(nodes, s[..k])
  {
    var s' := s[..k];
    forall i | 1 <= i < |s'|
      ensures ParentLink(nodes, s'[i], s'[i - 1])
    {
      assert s'[i] == s[i] && s'[i - 1] == s[i - 1];
      assert ParentLink(nodes, s[i], s[i - 1]);
    }
  }

  /** The last id of a chain names a node. */
  lemma ChainLastFound(nodes: seq<FlatNode>, s: seq<string>)
    requires IsChain(nodes, s)
    ensures Find(nodes, s[|s| - 1]).Some?
    ensures s[|s| - 1] in NodeIds(nodes)
  {
    var m := |s| - 1;
    if m > 0 {
      assert ParentLink(nodes, s[m], s[m - 1]);
    }
    var n := Find(nodes, s[m]).value;
    assert n in nodes && n.id == s[m];
  }

  /** A node whose parent ends a chain extends that chain. */
  lemma ChainExtend(nodes: seq<FlatNode>, q: seq<string>, c: FlatNode)
    requires UniqueIds(nodes) && IsChain(nodes, q)
    requires c in nodes && c.parent == Some(q[|q| - 1])
    ensures IsChain(nodes, q + [c.id])
  {
    FindUnique(nodes, c);
    var q' := q + [c.id];
    forall k | 1 <= k < |q'|
      ensures ParentLink(nodes, q'[k], q'[k - 1])
    {
      if k < |q| {
        assert q'[k] == q[k] && q'[k - 1] == q[k - 1];
        assert ParentLink(nodes, q[k], q[k - 1]);
      }
    }
  }

  /** An id has at most one parent chain. */
  lemma {:induction false} ChainUnique(nodes: seq<FlatNode>, s: seq<string>, t: seq<string>)
    requires IsChain(nodes, s) && IsChain(nodes, t)
    requires s[|s| - 1] == t[|t| - 1]
    ensures s == t
    decreases |s|
  {
    var m, n := |s| - 1, |t| - 1;
    if m > 0 {
      assert ParentLink(nodes, s[m], s[m - 1]);
    }
    if n > 0 {
      assert ParentLink(nodes, t[n], t[n - 1]);
    }
    if m > 0 && n > 0 {
      var s', t' := s[..m], t[..n];
      ChainPrefix(nodes, s, m);
      ChainPrefix(nodes, t, n);
      ChainUnique(nodes, s', t');
      assert s == s' + [s[|s| - 1]];
      assert t == t' + [t[|t| - 1]];
    }
  }

  /** `y` has a parent chain that starts with `q`. */
  ghost predicate ChainedFrom(nodes: seq<FlatNode>, y: string, q: seq<string>)
  {
    exists s :: IsChain(nodes, s) && |q| <= |s| && s[..|q|] == q && s[|s| - 1] == y
  }

  /** `y` has a parent chain that starts with `q` and continues with the id of
      one of `kids`. */
  ghost predicate ChainedBelow(nodes: seq<FlatNode>, y: string, q: seq<string>, kids: seq<FlatNode>)
  {
    exists j :: 0 <= j < |kids| && ChainedFrom(nodes, y, q + [kids[j].id])
  }

  lemma ChainedFromItself(nodes: seq<FlatNode>, q: seq<string>)
    requires IsChain(nodes, q)
    ensures ChainedFrom(nodes, q[|q| - 1], q)
  {
    assert q[..|q|] == q;
  }

  lemma BelowFirst(nodes: seq<FlatNode>, y: string, q: seq<string>, kids: seq<FlatNode>)
    requires |kids| > 0 && ChainedFrom(nodes, y, q + [kids[0].id])
    ensures ChainedBelow(nodes, y, q, kids)
  {
  }

  lemma BelowRest(nodes: seq<FlatNode>, y: string, q: seq<string>, kids: seq<FlatNode>)
    requires |kids| > 0 && ChainedBelow(nodes, y, q, kids[1..])
    ensures ChainedBelow(nodes, y, q, kids)
  {
    var j :| 0 <= j < |kids[1..]| && ChainedFrom(nodes, y, q + [kids[1..][j].id]);
    assert kids[1..][j] == kids[j + 1];
  }

  /** Two parent chains of the same id that agree up to `q` continue through
      the same id. */
  lemma BelowSameChild(nodes: seq<FlatNode>, y: string, q: seq<string>, a: string, b: string)
    requires ChainedFrom(nodes, y, q + [a]) && ChainedFrom(nodes, y, q + [b])
    ensures a == b
  {
    var qa, qb := q + [a], q + [b];
    var s :| IsChain(nodes, s) && |qa| <= |s| && s[..|qa|] == qa && s[|s| - 1] == y;
    var s' :| IsChain(nodes, s') && |qb| <= |s'| && s'[..|qb|] == qb && s'[|s'| - 1] == y;
    ChainUnique(nodes, s, s');
    assert s[|q|] == qa[|q|];
    assert s'[|q|] == qb[|q|];
  }

  /** An id below a child of the last id of `q` is not that last id. */
  lemma BelowIsNotTop(nodes: seq<FlatNode>, y: string, q: seq<string>, kids: seq<FlatNode>)
    requires IsChain(nodes, q) && ChainedBelow(nodes, y, q, kids)
    ensures y != q[|q| - 1]
  {
    var j :| 0 <= j < |kids| && ChainedFrom(nodes, y, q + [kids[j].id]);
    var qj := q + [kids[j].id];
    var s :| IsChain(nodes, s) && |qj| <= |s| && s[..|qj|] == qj && s[|s| - 1] == y;
    if y == q[|q| - 1] {
      ChainUnique(nodes, s, q);
    }
  }

  /** An id below a child of the last id of `q` is chained from `q`. */
  lemma BelowIsFrom(nodes: seq<FlatNode>, y: string, q: seq<string>, kids: seq<FlatNode>)
    requires ChainedBelow(nodes, y, q, kids)
    ensures ChainedFrom(nodes, y, q)
  {
    var j :| 0 <= j < |kids| && ChainedFrom(nodes, y, q + [kids[j].id]);
    var qj := q + [kids[j].id];
    var s :| IsChain(nodes, s) && |qj| <= |s| && s[..|qj|] == qj && s[|s| - 1] == y;
    assert s[..|q|] == s[..|qj|][..|q|] == q;
  }

  lemma DistinctCons(x: string, s: seq<string>)
    requires Distinct(s) && x !in s
    ensures Distinct([x] + s)
  {
  }

  lemma DistinctAppend(a: seq<string>, b: seq<string>)
    requires Distinct(a) && Distinct(b)
    requires forall y :: y in a ==> y !in b
    ensures Distinct(a + b)
  {
    forall i, j | 0 <= i < j < |a + b|
      ensures (a + b)[i] != (a + b)[j]
    {
      if i < |a| && j >= |a| {
        assert (a + b)[i] in a;
        assert (a + b)[j] in b;
      }
    }
  }

  lemma {:induction false} SubsequenceUniqueIds(a: seq<FlatNode>, b: seq<FlatNode>)
    requires IsSubsequence(a, b) && UniqueIds(b)
    ensures UniqueIds(a)
    decreases |b|
  {
    if |a| == 0 {
    } else if a[0] == b[0] {
      SubsequenceUniqueIds(a[1..], b[1..]);
      SubsequenceMembers(a[1..], b[1..]);
      forall j | 1 <= j < |a|
        ensures a[0].id != a[j].id
      {
        assert a[j] == a[1..][j - 1];
        assert a[j] in b[1..];
        var k :| 0 <= k < |b[1..]| && b[1..][k] == a[j];
        assert b[k + 1] == a[j];
      }
      forall i, j | 0 <= i < j < |a|
        ensures a[i].id != a[j].id
      {
        if i > 0 {
          assert a[i] == a[1..][i - 1] && a[j] == a[1..][j - 1];
        }
      }
    } else {
      SubsequenceUniqueIds(a, b[1..]);
    }
  }

  /** An id does not occur twice on a parent chain. */
  lemma ChainNoRepeat(nodes: seq<FlatNode>, p: seq<string>, x: string)
    requires IsChain(nodes, p + [x])
    ensures x !in SetOf(p)
  {
    var q := p + [x];
    if x in SetOf(p) {
      var j :| 0 <= j < |p| && p[j] == x;
      ChainPrefix(nodes, q, j + 1);
      assert q[..j + 1] == p[..j + 1];
      ChainUnique(nodes, p[..j + 1], q);
      assert false;
    }
  }

  /** One step of `Build` on a found, unvisited id whose children all return:
      the ids of the tree are the id followed by those of the children. */
  lemma BuildUnfold(nodes: seq<FlatNode>, x: string, visited: set<string>)
    requires Find(nodes, x).Some? && x !in visited
    requires BuildAll(nodes, ChildrenOf(nodes, x), visited + {x}).Some?
    ensures Build(nodes, x, visited).Node?
    ensures TreeIds(Build(nodes, x, visited).tree)
            == [x] + ForestIds(BuildAll(nodes, ChildrenOf(nodes, x), visited + {x}).value)
  {
    var ts := BuildAll(nodes, ChildrenOf(nodes, x), visited + {x}).value;
    var t := Build(nodes, x, visited).tree;
    assert t.id == x;
    if |ts| == 0 {
      assert t.children == Null;
    } else {
      assert t.children == List(ts);
    }
  }

  /** The last id of a chain followed by distinct ids chained below its
      children: no id twice, and all of them chained from the chain. */
  lemma RootedIds(nodes: seq<FlatNode>, q: seq<string>, kids: seq<FlatNode>, below: seq<string>)
    requires IsChain(nodes, q) && Distinct(below)
    requires forall y :: y in below ==> ChainedBelow(nodes, y, q, kids)
    ensures Distinct([q[|q| - 1]] + below)
    ensures forall y :: y in [q[|q| - 1]] + below ==> ChainedFrom(nodes, y, q)
  {
    var x := q[|q| - 1];
    ChainedFromItself(nodes, q);
    forall y | y in below
      ensures y != x && ChainedFrom(nodes, y, q)
    {
      BelowIsNotTop(nodes, y, q, kids);
      BelowIsFrom(nodes, y, q, kids);
    }
    DistinctCons(x, below);
  }

  /** Building below a node reached along the parent chain `p + [x]` never
      re-enters a call on the stack, and the tree lists each id once, all of
      them chained from `p + [x]`. */
  lemma {:induction false} BuildSound(nodes: seq<FlatNode>, x: string, p: seq<string>)
    requires UniqueIds(nodes)
    requires IsChain(nodes, p + [x])
    ensures Build(nodes, x, SetOf(p)).Node?
    ensures Distinct(TreeIds(Build(nodes, x, SetOf(p)).tree))
    ensures forall y :: y in TreeIds(Build(nodes, x, SetOf(p)).tree) ==> ChainedFrom(nodes, y, p + [x])
    decreases |NodeIds(nodes) - SetOf(p)|, 0
  {
    var q := p + [x];
    ChainNoRepeat(nodes, p, x);
    ChainLastFound(nodes, q);
    RemoveOne(NodeIds(nodes), SetOf(p), x);
    SetOfSnoc(p, x);
    var kids := ChildrenOf(nodes, x);
    SubsequenceUniqueIds(kids, nodes);
    BuildAllSound(nodes, kids, q);
    var ts := BuildAll(nodes, kids, SetOf(q)).value;
    BuildUnfold(nodes, x, SetOf(p));
    RootedIds(nodes, q, kids, ForestIds(ts));
  }

  /** Dropping the first node keeps the ids unique. */
  lemma UniqueIdsTail(kids: seq<FlatNode>)
    requires UniqueIds(kids) && |kids| > 0
    ensures UniqueIds(kids[1..])
  {
    var rest := kids[1..];
    forall i, j | 0 <= i < j < |rest|
      ensures rest[i].id != rest[j].id
    {
      assert rest[i] == kids[i + 1] && rest[j] == kids[j + 1];
    }
  }

  /** One step of `BuildAll` on a first child that builds: its tree's ids come
      before those of the rest. */
  lemma BuildAllUnfold(nodes: seq<FlatNode>, kids: seq<FlatNode>, visited: set<string>)
    requires |kids| > 0 && Build(nodes, kids[0].id, visited).Node?
    requires BuildAll(nodes, kids[1..], visited).Some?
    ensures BuildAll(nodes, kids, visited).Some?
    ensures ForestIds(BuildAll(nodes, kids, visited).value)
            == TreeIds(Build(nodes, kids[0].id, visited).tree) + ForestIds(BuildAll(nodes, kids[1..], visited).value)
  {
    var t := Build(nodes, kids[0].id, visited).tree;
    var ts := BuildAll(nodes, kids[1..], visited).value;
    assert BuildAll(nodes, kids, visited).value == [t] + ts;
    assert ([t] + ts)[1..] == ts;
  }

  /** The ids below the first child followed by distinct ids below the
      others: since the children's ids differ, no id occurs twice. */
  lemma ForestConsIds(nodes: seq<FlatNode>, q: seq<string>, kids: seq<FlatNode>, a: seq<string>, b: seq<string>)
    requires |kids| > 0 && UniqueIds(kids)
    requires Distinct(a) && Distinct(b)
    requires forall y :: y in a ==> ChainedFrom(nodes, y, q + [kids[0].id])
    requires forall y :: y in b ==> ChainedBelow(nodes, y, q, kids[1..])
    ensures Distinct(a + b)
    ensures forall y :: y in a + b ==> ChainedBelow(nodes, y, q, kids)
  {
    var rest := kids[1..];
    forall y | y in a
      ensures y !in b && ChainedBelow(nodes, y, q, kids)
    {
      BelowFirst(nodes, y, q, kids);
      if y in b {
        var j :| 0 <= j < |rest| && ChainedFrom(nodes, y, q + [rest[j].id]);
        assert rest[j] == kids[j + 1];
        BelowSameChild(nodes, y, q, kids[0].id, rest[j].id);
      }
    }
    forall y | y in b
      ensures ChainedBelow(nodes, y, q, kids)
    {
      BelowRest(nodes, y, q, kids);
    }
    DistinctAppend(a, b);
  }

  lemma {:induction false} BuildAllSound(nodes: seq<FlatNode>, kids: seq<FlatNode>, q: seq<string>)
    requires UniqueIds(nodes) && UniqueIds(kids)
    requires IsChain(nodes, q)
    requires forall c :: c in kids ==> c in nodes && c.parent == Some(q[|q| - 1])
    ensures BuildAll(nodes, kids, SetOf(q)).Some?
    ensures Distinct(ForestIds(BuildAll(nodes, kids, SetOf(q)).value))
    ensures forall y :: y in ForestIds(BuildAll(nodes, kids, SetOf(q)).value) ==> ChainedBelow(nodes, y, q, kids)
    decreases |NodeIds(nodes) - SetOf(q)|, 1 + |kids|
  {
    if |kids| > 0 {
      var k0 := kids[0];
      ChainExtend(nodes, q, k0);
      BuildSound(nodes, k0.id, q);
      var t := Build(nodes, k0.id, SetOf(q)).tree;
      var rest := kids[1..];
      UniqueIdsTail(kids);
      BuildAllSound(nodes, rest, q);
      var ts := BuildAll(nodes, rest, SetOf(q)).value;
      BuildAllUnfold(nodes, kids, SetOf(q));
      ForestConsIds(nodes, q, kids, TreeIds(t), ForestIds(ts));
    }
  }

  /** With unique node ids `transformToHierarchy` never re-enters an id it is
      already building, and the tree it returns holds every id at most
      once. */
  lemma HierarchyOfUniqueIds(data: Option<Dataset>)
    requires Present(data) && UniqueIds(data.value.nodes.value)
    ensures !TransformToHierarchy(data).StackOverflow?
    ensures TransformToHierarchy(data).Rooted? ==> Distinct(TreeIds(TransformToHierarchy(data).root))
  {
    var nodes := data.value.nodes.value;
    var top := FindFirst(IsTop(), nodes);
    if top.Some? {
      var x := top.value.id;
      FindUnique(nodes, top.value);
      assert [] + [x] == [x];
      BuildSound(nodes, x, []);
      assert SetOf([]) == {};
    }
  }

  // ---------------------------------------------------------------------
  // prepareForceGraphData

  /** Index `i` holds the last node carrying its id. */
  predicate LastOfId(nodes: seq<FlatNode>, i: int)
    requires 0 <= i < |nodes|
  {
    forall j :: i < j < |nodes| ==> nodes[j].id != nodes[i].id
  }

  /** `nodeMap`: each id mapped to a copy of a node, later nodes overwriting
      earlier ones with the same id. */
  function NodeMap(nodes: seq<FlatNode>): (m: map<string, FlatNode>)
    ensures m.Keys == NodeIds(nodes)
    ensures forall k :: k in m ==> m[k].id == k && m[k] in nodes
  {
    if |nodes| == 0 then map[]
    else
      var init := nodes[..|nodes| - 1];
      var last := nodes[|nodes| - 1];
      assert nodes == init + [last];
      NodeMap(init)[last.id := last]
  }

  /** A last node before the final one is last in the list without the
      final node, and its id differs from the final node's. */
  lemma LastOfIdInit(nodes: seq<FlatNode>, i: int)
    requires 0 <= i < |nodes| - 1 && LastOfId(nodes, i)
    ensures LastOfId(nodes[..|nodes| - 1], i)
    ensures nodes[i].id != nodes[|nodes| - 1].id
  {
  }

  /** The node kept for an id is the last node with that id. */
  lemma {:induction false} NodeMapKeepsLast(nodes: seq<FlatNode>)
    ensures forall i :: 0 <= i < |nodes| && LastOfId(nodes, i) ==> NodeMap(nodes)[nodes[i].id] == nodes[i]
  {
    if |nodes| > 0 {
      var init := nodes[..|nodes| - 1];
      var last := nodes[|nodes| - 1];
      NodeMapKeepsLast(init);
      forall i | 0 <= i < |nodes| && LastOfId(nodes, i)
        ensures NodeMap(nodes)[nodes[i].id] == nodes[i]
      {
        if i < |init| {
          LastOfIdInit(nodes, i);
        }
      }
    }
  }

  /** A link of the prepared graph: the `type` and any other field is gone. */
  datatype ForceLink = ForceLink(source: Endpoint, target: Endpoint)

  /** The prepared graph. `Object.values(nodeMap)` lists one node per key in an
      order this model does not fix, so the nodes are kept as the map. */
  datatype ForceGraph = ForceGraph(nodes: map<string, FlatNode>, links: seq<ForceLink>)

  /** `nodeMap[e] || e`. An object endpoint used as a key reads the
      "[object Object]" entry. */
  function Resolve(m: map<string, FlatNode>, e: Endpoint): Endpoint
  {
    match e
    case Ref(x) => if x in m then Record(m[x]) else e
    case Record(_) => if ObjectKey in m then Record(m[ObjectKey]) else e
  }

  /** How the prepared endpoint `e'` relates to the input endpoint `e`: a known
      id becomes the node kept for it, an unknown id is left dangling as it
      was, and an object becomes the node kept under "[object Object]", or
      stays the same object when there is none. */
  predicate ResolvedFrom(nodes: seq<FlatNode>, m: map<string, FlatNode>, e: Endpoint, e': Endpoint)
  {
    match e
    case Ref(x) =>
      && (x in NodeIds(nodes) ==> x in m && e' == Record(m[x]) && e'.node.id == x)
      && (x !in NodeIds(nodes) ==> e' == e)
    case Record(_) => e' == (if ObjectKey in m then Record(m[ObjectKey]) else e)
  }

  /** `prepareForceGraphData(data)` */
  function PrepareForceGraphData(data: Option<Dataset>): (r: ForceGraph)
    ensures !Present(data) ==> r.nodes == map[] && r.links == []
    ensures Present(data) ==>
              && r.nodes.Keys == NodeIds(data.value.nodes.value)
              && (forall k :: k in r.nodes ==> r.nodes[k].id == k && r.nodes[k] in data.value.nodes.value)
              && (forall i :: 0 <= i < |data.value.nodes.value| && LastOfId(data.value.nodes.value, i) ==>
                    r.nodes[data.value.nodes.value[i].id] == data.value.nodes.value[i])
              && |r.links| == |data.value.links.value|
              && forall i :: 0 <= i < |r.links| ==>
                   && ResolvedFrom(data.value.nodes.value, r.nodes, data.value.links.value[i].source, r.links[i].source)
                   && ResolvedFrom(data.value.nodes.value, r.nodes, data.value.links.value[i].target, r.links[i].target)
  {
    if !Present(data) then ForceGraph(map[], [])
    else
      NodeMapKeepsLast(data.value.nodes.value);
      var m := NodeMap(data.value.nodes.value);
      var links := data.value.links.value;
      ForceGraph(m, seq(|links|, i requires 0 <= i < |links| =>
                                 ForceLink(Resolve(m, links[i].source), Resolve(m, links[i].target))))
  }

  // ---------------------------------------------------------------------
  // filterByMaxDepth

  /** The `{nodes, links}` object `filterByMaxDepth` returns. */
  datatype Graph = Graph(nodes: seq<FlatNode>, links: seq<Link>)

  /** The graph handed on as a dataset with both lists present. */
  function AsData(g: Graph): (d: Option<Dataset>)
    ensures Present(d)
  {
    Some(Dataset(Some(g.nodes), Some(g.links)))
  }

  function WithinDepth(maxDepth: int): FlatNode -> bool
  {
    (n: FlatNode) => n.level <= maxDepth
  }

  function BothEndsIn(ids: set<string>): Link -> bool
  {
    (l: Link) => EndpointId(l.source) in ids && EndpointId(l.target) in ids
  }

  /** Every link of `g` joins two nodes of `g`. */
  predicate Closed(g: Graph)
  {
    forall l :: l in g.links ==> EndpointId(l.source) in NodeIds(g.nodes) && EndpointId(l.target) in NodeIds(g.nodes)
  }

  /** `filterByMaxDepth(data, maxDepth)` */
  function FilterByMaxDepth(data: Option<Dataset>, maxDepth: int): (r: Graph)
    ensures !Present(data) || maxDepth < 0 ==> r == Graph([], [])
    ensures Present(data) && maxDepth >= 0 ==>
              && IsSubsequence(r.nodes, data.value.nodes.value)
              && (forall n :: n in r.nodes <==> n in data.value.nodes.value && n.level <= maxDepth)
              && (forall n :: multiset(r.nodes)[n] == if n.level <= maxDepth then multiset(data.value.nodes.value)[n] else 0)
              && IsSubsequence(r.links, data.value.links.value)
              && (forall l :: l in r.links <==>
                    l in data.value.links.value
                    && EndpointId(l.source) in NodeIds(r.nodes) && EndpointId(l.target) in NodeIds(r.nodes))
              && (forall l :: multiset(r.links)[l] ==
                    if EndpointId(l.source) in NodeIds(r.nodes) && EndpointId(l.target) in NodeIds(r.nodes)
                    then multiset(data.value.links.value)[l] else 0)
    ensures Closed(r)
  {
    if !Present(data) || maxDepth < 0 then Graph([], [])
    else
      var kept := Filter(WithinDepth(maxDepth), data.value.nodes.value);
      FilterCount(WithinDepth(maxDepth), data.value.nodes.value);
      FilterCount(BothEndsIn(NodeIds(kept)), data.value.links.value);
      Graph(kept, Filter(BothEndsIn(NodeIds(kept)), data.value.links.value))
  }

  /** Filtering an already filtered graph to the same depth changes nothing. */
  lemma FilterIdempotent(data: Option<Dataset>, maxDepth: int)
    ensures FilterByMaxDepth(AsData(FilterByMaxDepth(data, maxDepth)), maxDepth) == FilterByMaxDepth(data, maxDepth)
  {
    var g := FilterByMaxDepth(data, maxDepth);
    if maxDepth >= 0 {
      FilterAll(WithinDepth(maxDepth), g.nodes);
      FilterAll(BothEndsIn(NodeIds(g.nodes)), g.links);
    }
  }

  /** Preparing a closed graph resolves every endpoint to a node record. */
  lemma PrepareClosed(g: Graph)
    requires Closed(g)
    ensures var p := PrepareForceGraphData(AsData(g));
            forall i :: 0 <= i < |p.links| ==>
              && p.links[i].source.Record? && p.links[i].target.Record?
              && (g.links[i].source.Ref? ==> p.links[i].source.node.id == g.links[i].source.ref)
              && (g.links[i].target.Ref? ==> p.links[i].target.node.id == g.links[i].target.ref)
  {
    var p := PrepareForceGraphData(AsData(g));
    forall i | 0 <= i < |p.links|
      ensures p.links[i].source.Record? && p.links[i].target.Record?
      ensures g.links[i].source.Ref? ==> p.links[i].source.node.id == g.links[i].source.ref
      ensures g.links[i].target.Ref? ==> p.links[i].target.node.id == g.links[i].target.ref
    {
      var l := g.links[i];
      assert l in g.links;
      assert EndpointId(l.source) in NodeIds(g.nodes);
      assert EndpointId(l.target) in NodeIds(g.nodes);
      assert ResolvedFrom(g.nodes, p.nodes, l.source, p.links[i].source);
      assert ResolvedFrom(g.nodes, p.nodes, l.target, p.links[i].target);
    }
  }

  /** Preparing a depth-filtered graph leaves no dangling endpoint and only
      nodes within the depth. */
  lemma PrepareAfterFilter(data: Option<Dataset>, maxDepth: int)
    ensures var f := FilterByMaxDepth(data, maxDepth);
            var g := PrepareForceGraphData(AsData(f));
            && |g.links| == |f.links|
            && (forall k :: k in g.nodes ==> g.nodes[k].level <= maxDepth)
            && forall i :: 0 <= i < |g.links| ==>
                 && g.links[i].source.Record? && g.links[i].target.Record?
                 && (f.links[i].source.Ref? ==> g.links[i].source.node.id == f.links[i].source.ref)
                 && (f.links[i].target.Ref? ==> g.links[i].target.node.id == f.links[i].target.ref)
  {
    var f := FilterByMaxDepth(data, maxDepth);
    PrepareClosed(f);
    var g := PrepareForceGraphData(AsData(f));
    forall k | k in g.nodes
      ensures g.nodes[k].level <= maxDepth
    {
      assert g.nodes[k] in f.nodes;
    }
  }
}
