/** The node queries of the jobs data service, over the dataset it has
    loaded (`null` until a fetch succeeds). */
module JobsDataService {
  import opened Common
  import opened DataUtils

  /** `this.data?.nodes || []` */
  function GetNodes(data: Option<Dataset>): (r: seq<FlatNode>)
    ensures data.None? || data.value.nodes.None? ==> r == []
    ensures data.Some? && data.value.nodes.Some? ==> r == data.value.nodes.value
  {
    if data.Some? && data.value.nodes.Some? then data.value.nodes.value else []
  }

  /** `this.data?.links || []` */
  function GetLinks(data: Option<Dataset>): (r: seq<Link>)
    ensures data.None? || data.value.links.None? ==> r == []
    ensures data.Some? && data.value.links.Some? ==> r == data.value.links.value
  {
    if data.Some? && data.value.links.Some? then data.value.links.value else []
  }

  function AtLevel(level: int): FlatNode -> bool
  {
    (n: FlatNode) => n.level == level
  }

  function OfType(nodeType: string): FlatNode -> bool
  {
    (n: FlatNode) => n.nodeType == nodeType
  }

  function ParentIs(parentId: Option<string>): FlatNode -> bool
  {
    (n: FlatNode) => n.parent == parentId
  }

  /** `getNodesByLevel(level)` */
  function GetNodesByLevel(data: Option<Dataset>, level: int): (r: seq<FlatNode>)
    ensures IsSubsequence(r, GetNodes(data))
    ensures forall n :: n in r <==> n in GetNodes(data) && n.level == level
    ensures forall n :: multiset(r)[n] == if n.level == level then multiset(GetNodes(data))[n] else 0
  {
    FilterCount(AtLevel(level), GetNodes(data));
    Filter(AtLevel(level), GetNodes(data))
  }

  /** `getNodesByType(type)` */
  function GetNodesByType(data: Option<Dataset>, nodeType: string): (r: seq<FlatNode>)
    ensures IsSubsequence(r, GetNodes(data))
    ensures forall n :: n in r <==> n in GetNodes(data) && n.nodeType == nodeType
    ensures forall n :: multiset(r)[n] == if n.nodeType == nodeType then multiset(GetNodes(data))[n] else 0
  {
    FilterCount(OfType(nodeType), GetNodes(data));
    Filter(OfType(nodeType), GetNodes(data))
  }

  /** `getChildNodes(parentId)`; a `null` parent id selects the top nodes. */
  function GetChildNodes(data: Option<Dataset>, parentId: Option<string>): (r: seq<FlatNode>)
    ensures IsSubsequence(r, GetNodes(data))
    ensures forall n :: n in r <==> n in GetNodes(data) && n.parent == parentId
    ensures forall n :: multiset(r)[n] == if n.parent == parentId then multiset(GetNodes(data))[n] else 0
  {
    FilterCount(ParentIs(parentId), GetNodes(data));
    Filter(ParentIs(parentId), GetNodes(data))
  }

  /** The children the service reports for an id are the ones the hierarchy
      transform attaches below it, in the same order. */
  lemma ChildNodesAreHierarchyChildren(data: Option<Dataset>, id: string)
    ensures GetChildNodes(data, Some(id)) == ChildrenOf(GetNodes(data), id)
  {
    FilterSame(ParentIs(Some(id)), HasParent(id), GetNodes(data));
  }

  /** The result of walking up from a node: the path, or a walk that never
      ends because the parent pointers loop. */
  datatype PathResult = Path(path: seq<FlatNode>) | Hangs

  /** `child` names `parent` as its parent. */
  predicate Linked(child: FlatNode, parent: FlatNode)
  {
    child.parent == Some(parent.id)
  }

  /** The loop of `getNodePath` from the node found for `id`, where `visited`
      holds the ids already put on the path. Each step puts the current node
      in front of the path and moves to the node its parent id names. */
  function Walk(nodes: seq<FlatNode>, id: string, visited: set<string>): (r: PathResult)
    ensures Find(nodes, id).None? ==> r == Path([])
    ensures r.Path? && Find(nodes, id).Some? ==>
              |r.path| >= 1 && r.path[|r.path| - 1] == Find(nodes, id).value
    decreases |NodeIds(nodes) - visited|
  {
    match Find(nodes, id)
    case None => Path([])
    case Some(cur) =>
      if id in visited then Hangs
      else if cur.parent.None? then Path([cur])
      else
        RemoveOne(NodeIds(nodes), visited, id);
        match Walk(nodes, cur.parent.value, visited + {id})
        case Hangs => Hangs
        case Path(ps) => Path(ps + [cur])
  }

  /** The shape of a path the walk returns: nodes of the dataset, none of
      them already visited, each naming the one before it as parent, the
      first one without a known parent, and no id twice. */
  predicate WellFormedPath(nodes: seq<FlatNode>, visited: set<string>, ps: seq<FlatNode>)
  {
    && (forall k :: 0 <= k < |ps| ==> ps[k] in nodes && ps[k].id !in visited)
    && (forall k {:trigger Linked(ps[k], ps[k - 1])} :: 1 <= k < |ps| ==> Linked(ps[k], ps[k - 1]))
    && (|ps| >= 1 ==> ps[0].parent.None? || Find(nodes, ps[0].parent.value).None?)
    && UniqueIds(ps)
  }

  /** Putting the current node behind a well-formed path from its parent
      keeps the path well formed. */
  lemma ExtendPath(nodes: seq<FlatNode>, visited: set<string>, ps: seq<FlatNode>, cur: FlatNode)
    requires WellFormedPath(nodes, visited + {cur.id}, ps)
    requires cur in nodes && cur.id !in visited
    requires |ps| >= 1 && cur.parent == Some(ps[|ps| - 1].id)
    ensures WellFormedPath(nodes, visited, ps + [cur])
  {
    var r := ps + [cur];
    assert forall k :: 0 <= k < |ps| ==> r[k] == ps[k];
    forall k | 1 <= k < |r|
      ensures Linked(r[k], r[k - 1])
    {
      if k < |ps| {
        assert Linked(ps[k], ps[k - 1]);
      }
    }
  }

  /** One step of the walk from a found, unvisited node with a parent id,
      when the walk from that parent returns. */
  lemma WalkUnfold(nodes: seq<FlatNode>, id: string, visited: set<string>, cur: FlatNode)
    requires Find(nodes, id) == Some(cur) && id !in visited && cur.parent.Some?
    requires Walk(nodes, cur.parent.value, visited + {id}).Path?
    ensures Walk(nodes, id, visited) == Path(Walk(nodes, cur.parent.value, visited + {id}).path + [cur])
  {
  }

  /** A path of one node that has no known parent is well formed. */
  lemma SinglePath(nodes: seq<FlatNode>, visited: set<string>, cur: FlatNode)
    requires cur in nodes && cur.id !in visited
    requires cur.parent.None? || Find(nodes, cur.parent.value).None?
    ensures WellFormedPath(nodes, visited, [cur])
  {
  }

  lemma {:induction false} WalkWellFormed(nodes: seq<FlatNode>, id: string, visited: set<string>)
    requires Walk(nodes, id, visited).Path?
    ensures WellFormedPath(nodes, visited, Walk(nodes, id, visited).path)
    decreases |NodeIds(nodes) - visited|
  {
    match Find(nodes, id)
    case None =>
    case Some(cur) =>
      assert id !in visited;
      if cur.parent.None? {
        SinglePath(nodes, visited, cur);
      } else {
        RemoveOne(NodeIds(nodes), visited, id);
        WalkWellFormed(nodes, cur.parent.value, visited + {id});
        WellFormedStep(nodes, id, visited, cur);
      }
  }

  /** A step of the walk keeps the path well formed. */
  lemma WellFormedStep(nodes: seq<FlatNode>, id: string, visited: set<string>, cur: FlatNode)
    requires Find(nodes, id) == Some(cur) && id !in visited && cur.parent.Some?
    requires Walk(nodes, cur.parent.value, visited + {id}).Path?
    requires WellFormedPath(nodes, visited + {id}, Walk(nodes, cur.parent.value, visited + {id}).path)
    ensures Walk(nodes, id, visited).Path?
    ensures WellFormedPath(nodes, visited, Walk(nodes, id, visited).path)
  {
    var p := cur.parent.value;
    WalkUnfold(nodes, id, visited, cur);
    var ps := Walk(nodes, p, visited + {id}).path;
    if |ps| == 0 {
      SinglePath(nodes, visited, cur);
    } else {
      ExtendPath(nodes, visited, ps, cur);
    }
  }

  /** `getNodePath(nodeId)` */
  function GetNodePath(data: Option<Dataset>, nodeId: string): (r: PathResult)
    ensures Find(GetNodes(data), nodeId).None? ==> r == Path([])
    ensures r.Path? && Find(GetNodes(data), nodeId).Some? ==>
              |r.path| >= 1 && r.path[|r.path| - 1].id == nodeId
  {
    Walk(GetNodes(data), nodeId, {})
  }

  /** A returned path lists nodes of the dataset, each naming the one before
      it as parent, starting at a node whose parent is `null` or unknown, and
      never the same id twice. */
  lemma NodePathShape(data: Option<Dataset>, nodeId: string)
    requires GetNodePath(data, nodeId).Path?
    ensures var ps := GetNodePath(data, nodeId).path;
            && (forall k :: 0 <= k < |ps| ==> ps[k] in GetNodes(data))
            && (forall k {:trigger Linked(ps[k], ps[k - 1])} :: 1 <= k < |ps| ==> Linked(ps[k], ps[k - 1]))
            && (|ps| >= 1 ==> ps[0].parent.None? || Find(GetNodes(data), ps[0].parent.value).None?)
            && UniqueIds(ps)
  {
    WalkWellFormed(GetNodes(data), nodeId, {});
  }

  /** Each node's parent, when it names a node, sits on a lower level. */
  predicate LevelsDescend(nodes: seq<FlatNode>)
  {
    forall n :: n in nodes && n.parent.Some? && Find(nodes, n.parent.value).Some? ==>
      Find(nodes, n.parent.value).value.level < n.level
  }

  /** Every id in `visited` names a node above the one `id` names. */
  predicate AllAbove(nodes: seq<FlatNode>, visited: set<string>, id: string)
  {
    forall v :: v in visited ==>
      Find(nodes, v).Some? && (Find(nodes, id).Some? ==> Find(nodes, v).value.level > Find(nodes, id).value.level)
  }

  /** Moving from a node to its parent keeps every visited id above. */
  lemma AboveStep(nodes: seq<FlatNode>, visited: set<string>, id: string, cur: FlatNode)
    requires LevelsDescend(nodes) && AllAbove(nodes, visited, id)
    requires Find(nodes, id) == Some(cur) && cur.parent.Some?
    ensures AllAbove(nodes, visited + {id}, cur.parent.value)
  {
    var p := cur.parent.value;
    if Find(nodes, p).Some? {
      assert Find(nodes, p).value.level < cur.level;
    }
  }

  /** A walk whose step to the parent returns, returns. */
  lemma WalkStep(nodes: seq<FlatNode>, id: string, visited: set<string>, cur: FlatNode)
    requires Find(nodes, id) == Some(cur) && id !in visited && cur.parent.Some?
    requires Walk(nodes, cur.parent.value, visited + {id}).Path?
    ensures Walk(nodes, id, visited).Path?
  {
  }

  lemma {:induction false} WalkEnds(nodes: seq<FlatNode>, id: string, visited: set<string>)
    requires LevelsDescend(nodes)
    requires AllAbove(nodes, visited, id)
    ensures Walk(nodes, id, visited).Path?
    decreases |NodeIds(nodes) - visited|
  {
    match Find(nodes, id)
    case None =>
    case Some(cur) =>
      assert id !in visited;
      if cur.parent.Some? {
        RemoveOne(NodeIds(nodes), visited, id);
        AboveStep(nodes, visited, id, cur);
        WalkEnds(nodes, cur.parent.value, visited + {id});
        WalkStep(nodes, id, visited, cur);
      }
  }

  /** When levels descend along parent pointers, `getNodePath` always
      returns. */
  lemma LevelsDescendNoHang(data: Option<Dataset>, nodeId: string)
    requires LevelsDescend(GetNodes(data))
    ensures GetNodePath(data, nodeId).Path?
  {
    WalkEnds(GetNodes(data), nodeId, {});
  }

  /** A path walked to a top node is a parent chain of the hierarchy
      transform, so the node sits in the tree built from that top node. */
  lemma PathToTopIsChain(data: Option<Dataset>, nodeId: string)
    requires GetNodePath(data, nodeId).Path?
    requires var ps := GetNodePath(data, nodeId).path;
             |ps| >= 1 && ps[0].parent.None?
    requires UniqueIds(GetNodes(data))
    ensures IsChain(GetNodes(data), NodeIdSeq(GetNodePath(data, nodeId).path))
  {
    var nodes := GetNodes(data);
    var ps := GetNodePath(data, nodeId).path;
    var s := NodeIdSeq(ps);
    NodePathShape(data, nodeId);
    FindUnique(nodes, ps[0]);
    forall k | 1 <= k < |s|
      ensures ParentLink(nodes, s[k], s[k - 1])
    {
      assert Linked(ps[k], ps[k - 1]);
      FindUnique(nodes, ps[k]);
    }
  }
}
