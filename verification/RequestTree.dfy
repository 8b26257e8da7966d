/** The request tree as the application uses it: built from the captured requests, indexed, and
    asked for nodes by path and for the captures below them. */
module RequestTree {
  import opened Basics
  import opened RequestNames
  import opened TreePaths
  import opened TreeGrowth
  import opened TreeFold
  import opened TreeIndex

  class RequestTreeModel {
    const hasher: Hasher
    var roots: seq<nat>
    var nodes: seq<Node>
    var logicalPositions: seq<nat>
    var nodesByPathHash: Table
    /** The requests the tree was built from. */
    ghost var entries: seq<Entry>

    ghost function ForestWith(branches: Branches): Forest
      reads this
    {
      Forest(roots, nodes, branches)
    }

    /** `push_node` with the parent's list brought up to date. */
    method PushNode(x: Node) returns (id: nat)
      requires Slots(nodes) && (x.parent.Some? ==> x.parent.value < |nodes|)
      modifies this`roots, this`nodes
      ensures id == |old(nodes)| && nodes == Attach(old(nodes), x) && roots == AttachRoot(old(roots), old(nodes), x)
    {
      id := |nodes|;
      ghost var was := nodes;
      nodes := nodes + [x];
      if x.parent.None? {
        roots := roots + [id];
      } else {
        var p := x.parent.value;
        var node := nodes[p];
        if x.kind.Capture? {
          nodes := nodes[p := node.(children := node.children + [id])];
          assert node.children[..|node.children|] + [id] + node.children[|node.children|..] == node.children + [id];
        } else {
          var at := node.branchChildren;
          nodes := nodes[p := node.(children := node.children[..at] + [id] + node.children[at..],
                                    branchChildren := at + 1)];
        }
        assert nodes == was[p := nodes[p]] + [x];
      }
    }

    /** `branch_mut_or_insert` */
    method BranchMutOrInsert(parent: Option<nat>, title: string, branches: Branches)
        returns (id: nat, known: Branches)
      requires Fit(ForestWith(branches)) && Within(ForestWith(branches), parent)
      modifies this`roots, this`nodes
      ensures Spot(ForestWith(known), id) == Branch(old(ForestWith(branches)), parent, title)
    {
      if (parent, title) in branches {
        return branches[(parent, title)], branches;
      }
      id := PushNode(BranchNode(parent, title));
      known := branches[(parent, title) := id];
    }

    /** One step of `from_requests` down a request's path: the branch, and its count. */
    method EnterBranch(parent: Option<nat>, title: string, branches: Branches) returns (id: nat, known: Branches)
      requires Fit(ForestWith(branches)) && Within(ForestWith(branches), parent)
      modifies this`roots, this`nodes
      ensures Spot(ForestWith(known), id) == Enter(old(ForestWith(branches)), parent, title)
    {
      id, known := BranchMutOrInsert(parent, title, branches);
      nodes := nodes[id := nodes[id].(leafCount := nodes[id].leafCount + 1)];
    }

    /** One round of `from_requests`. */
    method AddRequest(e: Entry, branches: Branches) returns (known: Branches)
      requires Fit(ForestWith(branches))
      modifies this`roots, this`nodes
      ensures ForestWith(known) == Add(old(ForestWith(branches)), e)
    {
      hide Descend, Enter, Attach;
      ghost var was := ForestWith(branches);
      DescendNone(was, e.origin);
      var parent;
      parent, known := EnterBranch(None, e.origin, branches);
      var segments := ParentSegments(e.segments);
      var i := 0;
      while i < |segments|
        invariant 0 <= i <= |segments|
        invariant Spot(ForestWith(known), parent) == Descend(was, e.origin, segments[..i])
      {
        parent, known := EnterBranch(Some(parent), segments[i], known);
        DescendMore(was, e.origin, segments[..i], segments[i]);
        assert segments[..i + 1] == segments[..i] + [segments[i]];
        i := i + 1;
      }
      assert segments[..i] == segments;
      var _ := PushNode(CaptureNode(parent, Label(e), e.sequence));
    }

    ghost predicate Built()
      reads this
    {
      && Rooted(nodes) && Linked(nodes) && DistinctSiblings(nodes) && Shaped(roots, nodes)
      && Ordered(nodes) && NonEmpty(nodes)
      && Houses(nodes, entries, Homes(entries)) && Counted(nodes, [])
    }

    /** The nodes in the order they are numbered. */
    ghost function Order(): seq<nat>
      requires Built()
      reads this
    {
      LinkedDescends(nodes);
      Listed(nodes, roots, None);
      Preorder(nodes, roots, 0)
    }

    ghost predicate Valid()
      reads this
    {
      && Built() && DistinctSequences(entries)
      && roots == Grow(entries).roots && nodes == Grow(entries).nodes
      && logicalPositions == Placed(Zeros(|nodes|), Order(), 0)
      && nodesByPathHash == Noted(hasher, nodes, map[], Order())
    }

    lemma IsGrown()
      requires Valid()
      ensures roots == Grow(entries).roots && nodes == Grow(entries).nodes
    {
    }

    /** `from_requests`: the tree of these requests, indexed. */
    constructor FromRequests(hasher: Hasher, requests: seq<Entry>)
      requires DistinctSequences(requests)
      ensures Valid() && entries == requests && this.hasher == hasher
      ensures roots == Grow(requests).roots && nodes == Grow(requests).nodes
    {
      this.hasher := hasher;
      roots, nodes, logicalPositions, nodesByPathHash := [], [], [], map[];
      entries := requests;
      new;
      hide Add, DistinctSequences, Grow, Fit, Valid, Built;
      GrowNone();
      var branches: Branches := map[];
      var i := 0;
      while i < |requests|
        invariant 0 <= i <= |requests| && entries == requests && ForestWith(branches) == Grow(requests[..i])
      {
        branches := AddRequest(requests[i], branches);
        GrowMore(requests[..i], requests[i]);
        assert requests[..i + 1] == requests[..i] + [requests[i]];
        i := i + 1;
      }
      assert requests[..i] == requests;
      Finished();
      RebuildSearchIndex();
    }

    lemma Finished()
      requires DistinctSequences(entries) && roots == Grow(entries).roots && nodes == Grow(entries).nodes
      ensures Built()
    {
      hide Grow, Homes;
      GrowHolds(entries);
    }

    /** `rebuild_search_index` */
    method RebuildSearchIndex()
      requires Built() && DistinctSequences(entries)
      requires roots == Grow(entries).roots && nodes == Grow(entries).nodes
      modifies this`logicalPositions, this`nodesByPathHash
      ensures Valid()
    {
      hide Houses, Counted, Ordered, Linked, DistinctSiblings, Lists, Preorder, Placed, Noted;
      RootHashes(hasher, roots, nodes);
      var _, placed, noted := IndexNodes(hasher, nodes, roots, 0, hasher.offset, 0, Zeros(|nodes|), map[]);
      logicalPositions, nodesByPathHash := placed, noted;
    }

    /** `logical_position`: the place of a path in the numbering, for any hash. */
    method LogicalPosition(path: seq<string>) returns (r: Option<nat>)
      requires Valid()
      ensures r.Some? ==> r.value < |Order()| == |nodes| && Path(nodes, Order()[r.value]) == path
      ensures r.None? ==> forall id: nat :: id < |nodes| ==> Path(nodes, id) != path
    {
      hide Built, Order, Placed, Noted, Path, Trail, Bucket, Grow, DistinctSequences;
      Readable();
      ghost var order := Order();
      var hash := HashPath(hasher, path);
      var ids := Bucket(nodesByPathHash, hash);
      var i := 0;
      InBucket(hash);
      while i < |ids|
        invariant 0 <= i <= |ids|
        invariant forall k :: 0 <= k < i ==> Path(nodes, ids[k]) != path
      {
        var matches := NodeMatchesPath(nodes, ids[i], path);
        if matches {
          ghost var k :| 0 <= k < |order| && order[k] == ids[i];
          return Some(logicalPositions[ids[i]]);
        }
        i := i + 1;
      }
      forall id: nat | id < |nodes| ensures Path(nodes, id) != path {
        if HashOf(hasher, nodes, id) == hash {
          assert id in ids;
          var k :| 0 <= k < |ids| && ids[k] == id;
        }
      }
      return None;
    }

    lemma Readable()
      requires Valid()
      ensures Rooted(nodes) && |Order()| == |nodes| == |logicalPositions|
      ensures forall k :: 0 <= k < |Order()| ==> Order()[k] < |nodes| && logicalPositions[Order()[k]] == k
    {
      hide Houses, Counted, Ordered, Noted, Placed, Preorder, Linked;
      PreorderIsPermutation(roots, nodes);
      forall k | 0 <= k < |Order()| ensures Order()[k] < |nodes| && logicalPositions[Order()[k]] == k {
        PlacedAt(Zeros(|nodes|), Order(), 0, k);
      }
    }

    lemma InBucket(hash: nat)
      requires Valid()
      ensures forall k :: 0 <= k < |Bucket(nodesByPathHash, hash)| ==> Bucket(nodesByPathHash, hash)[k] < |nodes|
      ensures forall k :: 0 <= k < |Bucket(nodesByPathHash, hash)| ==> Bucket(nodesByPathHash, hash)[k] in Order()
      ensures forall id: nat :: id < |nodes| && HashOf(hasher, nodes, id) == hash ==>
                id in Bucket(nodesByPathHash, hash)
    {
      PreorderIsPermutation(roots, nodes);
      var ids := Bucket(nodesByPathHash, hash);
      forall k | 0 <= k < |ids| ensures ids[k] < |nodes| && ids[k] in Order() {
        BucketHolds(hasher, nodes, Order(), hash, ids[k]);
      }
      forall id: nat | id < |nodes| && HashOf(hasher, nodes, id) == hash ensures id in ids {
        BucketHolds(hasher, nodes, Order(), hash, id);
      }
    }

    /** `contains`, by the index, agrees with `find`, by the tree. */
    method Contains(path: seq<string>) returns (r: bool)
      requires Valid()
      ensures r <==> exists id: nat :: id < |nodes| && Path(nodes, id) == path
    {
      var position := LogicalPosition(path);
      r := position.Some?;
    }

    /** `collect_sequences` */
    method CollectSequences(id: nat, output: seq<nat>) returns (more: seq<nat>)
      requires Linked(nodes) && Descending(nodes) && Ordered(nodes) && id < |nodes|
      ensures more == output + Requests(nodes, Subtree(nodes, id))
      decreases |nodes| - id
    {
      hide Linked, Requests, Preorder;
      var node := nodes[id];
      SubtreeIs(nodes, id);
      assert node.children[..0] == [] && [id] + [] == [id];
      PreorderOfNone(nodes, id + 1);
      RequestsOfOne(nodes, id);
      if node.kind.Capture? {
        return output + [node.kind.sequence];
      }
      more := output;
      var i := 0;
      while i < |node.children|
        invariant 0 <= i <= |node.children|
        invariant more == output + Requests(nodes, [id] + Preorder(nodes, node.children[..i], id + 1))
      {
        more := CollectSequences(node.children[i], more);
        RequestsStep(nodes, id, i);
        i := i + 1;
      }
      assert node.children[..i] == node.children;
    }

    /** `sequences_under`: exactly the requests whose own path extends `path`, each once, and as
        many as the node of that path counts. */
    method SequencesUnder(path: seq<string>) returns (sequences: seq<nat>)
      requires Valid()
      ensures forall q :: q in sequences <==> path != [] && Extending(entries, path, q)
      ensures NoRepeats(sequences)
      ensures forall id: nat :: id < |nodes| && Path(nodes, id) == path ==> |sequences| == nodes[id].leafCount
    {
      hide Ordered, Requests, Houses, Linked, DistinctSiblings, Shaped, Preorder, Placed, Noted, Order, Path, Trail;
      var root := Find(roots, nodes, path);
      if root.None? {
        if path != [] { NoneExtends(nodes, entries, Homes(entries), path); }
        return [];
      }
      LinkedDescends(nodes);
      sequences := CollectSequences(root.value, []);
      UnderNode(nodes, entries, Homes(entries), root.value);
      forall id: nat | id < |nodes| && Path(nodes, id) == path ensures id == root.value {
        PathsAreUnique(nodes, id, root.value);
      }
    }
  }

  /** Two trees of the same requests are the same, with their indexes. */
  lemma SameRequestsSameTree(a: RequestTreeModel, b: RequestTreeModel)
    requires a.Valid() && b.Valid() && a.entries == b.entries && a.hasher == b.hasher
    ensures a.roots == b.roots && a.nodes == b.nodes
    ensures a.logicalPositions == b.logicalPositions && a.nodesByPathHash == b.nodesByPathHash
  {
    hide Grow, Preorder, Placed, Noted, Houses, Counted;
    assert a.Order() == b.Order();
  }

  lemma NoneExtends(nodes: seq<Node>, entries: seq<Entry>, home: seq<nat>, path: seq<string>)
    requires Rooted(nodes) && Houses(nodes, entries, home) && path != []
    requires forall id: nat :: id < |nodes| ==> Path(nodes, id) != path
    ensures forall q :: !Extending(entries, path, q)
  {
    forall k | 0 <= k < |entries| ensures !(path <= RequestPath(entries[k])) {
      NoneBeyond(nodes, home[k], path);
    }
  }

  lemma NoneBeyond(nodes: seq<Node>, id: nat, path: seq<string>)
    requires Rooted(nodes) && id < |nodes| && path != []
    requires forall a: nat :: a < |nodes| ==> Path(nodes, a) != path
    ensures !(path <= Path(nodes, id))
  {
    if |path| <= |Path(nodes, id)| {
      TrailWithin(nodes, id, |path| - 1);
    }
  }

  lemma UnderNode(nodes: seq<Node>, entries: seq<Entry>, home: seq<nat>, id: nat)
    requires Rooted(nodes) && Linked(nodes) && Descending(nodes) && DistinctSiblings(nodes) && id < |nodes|
    requires Houses(nodes, entries, home) && DistinctSequences(entries)
    ensures NoRepeats(Requests(nodes, Subtree(nodes, id)))
    ensures |Requests(nodes, Subtree(nodes, id))| == |Leaves(nodes, id)|
    ensures forall q :: q in Requests(nodes, Subtree(nodes, id)) <==> Extending(entries, Path(nodes, id), q)
  {
    hide Linked, Requests, Preorder, Houses, DistinctSequences, DistinctSiblings, Extending;
    var below := Subtree(nodes, id);
    SubtreeByPath(nodes, id);
    RequestsCount(nodes, below);
    assert Captures(nodes, below) == Leaves(nodes, id);
    HousedOnce(nodes, entries, home);
    RequestsOnce(nodes, below);
    forall q ensures q in Requests(nodes, below) <==> Extending(entries, Path(nodes, id), q) {
      RequestsHold(nodes, below, q);
      HousedUnder(nodes, entries, home, below, id, q);
    }
  }

  lemma HousedUnder(nodes: seq<Node>, entries: seq<Entry>, home: seq<nat>, below: seq<nat>, id: nat, q: nat)
    requires Rooted(nodes) && Houses(nodes, entries, home) && id < |nodes|
    requires forall c: nat :: c in below <==> c < |nodes| && Path(nodes, id) <= Path(nodes, c)
    ensures (exists c: nat :: c in below && nodes[c].kind == Capture(q)) <==> Extending(entries, Path(nodes, id), q)
  {
    hide Path, Trail, RequestPath, Label;
    if c: nat :| c in below && nodes[c].kind == Capture(q) {
      var k :| 0 <= k < |home| && home[k] == c;
      assert entries[k].sequence == q && Path(nodes, id) <= RequestPath(entries[k]);
    }
    if Extending(entries, Path(nodes, id), q) {
      var k :| 0 <= k < |entries| && entries[k].sequence == q && Path(nodes, id) <= RequestPath(entries[k]);
      assert home[k] in below;
    }
  }

  lemma HousedOnce(nodes: seq<Node>, entries: seq<Entry>, home: seq<nat>)
    requires Rooted(nodes) && Houses(nodes, entries, home) && DistinctSequences(entries)
    ensures OneNodeARequest(nodes)
  {
    hide Path, Trail, RequestPath, Label;
    forall c, d | 0 <= c < |nodes| && 0 <= d < |nodes| && nodes[c].kind.Capture? && nodes[c].kind == nodes[d].kind
      ensures c == d
    {
      var k :| 0 <= k < |home| && home[k] == c;
      var l :| 0 <= l < |home| && home[l] == d;
      assert entries[k].sequence == entries[l].sequence;
    }
  }

  /** Request `q` is among `entries`, under a path that extends `path`. */
  predicate Extending(entries: seq<Entry>, path: seq<string>, q: nat) {
    exists k :: 0 <= k < |entries| && entries[k].sequence == q && path <= RequestPath(entries[k])
  }

  function Zeros(n: nat): seq<nat> { seq(n, _ => 0) }
}
