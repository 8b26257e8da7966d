/** How the request tree grows: one node is attached at a time, branches ahead of captures, and
    every node counts the captures below it. */
module TreeGrowth {
  import opened Basics
  import opened RequestNames
  import opened TreePaths

  type Branches = map<(Option<nat>, string), nat>

  function BranchIdentifier(parent: Option<nat>, title: string): string {
    if parent.None? then OriginIdentifier(title) else SegmentIdentifier(title)
  }

  function BranchNode(parent: Option<nat>, title: string): Node {
    Node(BranchIdentifier(parent, title), title, if parent.None? then Origin else Segment, parent, [], 0, 0)
  }

  function CaptureNode(parent: nat, title: string, sequence: nat): Node {
    Node(RequestIdentifier(sequence), title, Capture(sequence), Some(parent), [], 0, 1)
  }

  // ---------------------------------------------------------------------------------------
  // Attaching

  predicate Slots(nodes: seq<Node>) {
    && (forall p :: 0 <= p < |nodes| ==> nodes[p].branchChildren <= |nodes[p].children|)
  }

  /** The parent's list with the new node in it: behind the last branch, or at the very end. */
  function Adopt(p: Node, id: nat, capture: bool): Node
    requires p.branchChildren <= |p.children|
  {
    var at := if capture then |p.children| else p.branchChildren;
    p.(children := p.children[..at] + [id] + p.children[at..],
       branchChildren := if capture then p.branchChildren else p.branchChildren + 1)
  }

  function Attach(nodes: seq<Node>, x: Node): (r: seq<Node>)
    requires Slots(nodes) && (x.parent.Some? ==> x.parent.value < |nodes|)
    ensures |r| == |nodes| + 1
  {
    if x.parent.None? then nodes + [x]
    else
      var p := x.parent.value;
      nodes[p := Adopt(nodes[p], |nodes|, x.kind.Capture?)] + [x]
  }

  function AttachRoot(roots: seq<nat>, nodes: seq<Node>, x: Node): seq<nat> {
    if x.parent.None? then roots + [|nodes|] else roots
  }

  /** What a later tree keeps of an earlier one. */
  predicate Extends(nodes: seq<Node>, after: seq<Node>) {
    && |nodes| <= |after|
    && forall i :: 0 <= i < |nodes| ==>
         && after[i].parent == nodes[i].parent && after[i].identifier == nodes[i].identifier
         && after[i].kind == nodes[i].kind
  }

  predicate SameTitles(nodes: seq<Node>, after: seq<Node>) {
    |nodes| <= |after| && forall i :: 0 <= i < |nodes| ==> after[i].title == nodes[i].title
  }

  lemma AttachTitles(nodes: seq<Node>, x: Node)
    requires Slots(nodes) && (x.parent.Some? ==> x.parent.value < |nodes|)
    ensures SameTitles(nodes, Attach(nodes, x))
  {
  }

  lemma AttachExtends(nodes: seq<Node>, x: Node)
    requires Slots(nodes) && (x.parent.Some? ==> x.parent.value < |nodes|)
    ensures Extends(nodes, Attach(nodes, x)) && Attach(nodes, x)[|nodes|] == x
  {
  }

  lemma AttachRooted(nodes: seq<Node>, x: Node)
    requires Slots(nodes) && Rooted(nodes) && (x.parent.Some? ==> x.parent.value < |nodes|)
    ensures Rooted(Attach(nodes, x))
  {
    AttachExtends(nodes, x);
  }

  lemma ListsStay(nodes: seq<Node>, after: seq<Node>, ids: seq<nat>, owner: Option<nat>)
    requires Lists(nodes, ids, owner) && Extends(nodes, after) && |after| == |nodes| + 1
    requires after[|nodes|].parent != owner
    ensures Lists(after, ids, owner)
  {
    forall c: nat ensures c in ids <==> c < |after| && after[c].parent == owner {}
  }

  lemma ListsGrow(nodes: seq<Node>, after: seq<Node>, ids: seq<nat>, at: nat, owner: Option<nat>)
    requires Lists(nodes, ids, owner) && Extends(nodes, after) && |after| == |nodes| + 1 && at <= |ids|
    requires after[|nodes|].parent == owner
    ensures Lists(after, ids[..at] + [|nodes|] + ids[at..], owner)
  {
    var more := ids[..at] + [|nodes|] + ids[at..];
    Listed(nodes, ids, owner);
    assert forall k :: 0 <= k < |more| ==>
        more[k] == if k < at then ids[k] else if k == at then |nodes| else ids[k - 1];
    forall c: nat ensures c in more <==> c < |after| && after[c].parent == owner {
      assert ids == ids[..at] + ids[at..];
      assert c in more <==> c in ids || c == |nodes|;
    }
  }

  lemma ListsNothing(after: seq<Node>, n: nat)
    requires Rooted(after) && |after| == n + 1
    ensures Lists(after, [], Some(n))
  {
  }

  /** Attaching keeps parents and child lists in step. */
  lemma AttachLinked(roots: seq<nat>, nodes: seq<Node>, x: Node)
    requires Slots(nodes) && Linked(nodes) && Lists(nodes, roots, None) && x.children == [] && x.branchChildren == 0
    requires x.parent.Some? ==> x.parent.value < |nodes|
    ensures Slots(Attach(nodes, x)) && Linked(Attach(nodes, x))
    ensures Lists(Attach(nodes, x), AttachRoot(roots, nodes, x), None)
  {
    var after := Attach(nodes, x);
    AttachExtends(nodes, x);
    AttachRooted(nodes, x);
    hide Lists;
    forall p | 0 <= p < |after| ensures Lists(after, after[p].children, Some(p)) {
      if p == |nodes| {
        ListsNothing(after, p);
      } else if x.parent == Some(p) {
        ListsGrow(nodes, after, nodes[p].children,
                  if x.kind.Capture? then |nodes[p].children| else nodes[p].branchChildren, Some(p));
      } else {
        ListsStay(nodes, after, nodes[p].children, Some(p));
      }
    }
    if x.parent.None? {
      ListsGrow(nodes, after, roots, |roots|, None);
      assert roots[..|roots|] + [|nodes|] + roots[|roots|..] == roots + [|nodes|];
    } else {
      ListsStay(nodes, after, roots, None);
    }
  }

  // ---------------------------------------------------------------------------------------
  // Names and order

  /** Every node is named after what it is. */
  predicate Named(nodes: seq<Node>) {
    forall i :: 0 <= i < |nodes| ==>
      match nodes[i].kind
      case Capture(q) => nodes[i].parent.Some? && nodes[i].identifier == RequestIdentifier(q)
      case Origin => nodes[i].parent.None? && nodes[i].identifier == OriginIdentifier(nodes[i].title)
      case Segment => nodes[i].parent.Some? && nodes[i].identifier == SegmentIdentifier(nodes[i].title)
  }

  /** Children that are branches come first, captures have no children, and a branch hangs
      under a branch. */
  predicate Ordered(nodes: seq<Node>) {
    && Slots(nodes)
    && (forall p, k :: 0 <= p < |nodes| && 0 <= k < |nodes[p].children| ==>
          && nodes[p].children[k] < |nodes|
          && (k < nodes[p].branchChildren <==> !nodes[nodes[p].children[k]].kind.Capture?))
    && (forall p :: 0 <= p < |nodes| && nodes[p].kind.Capture? ==> nodes[p].children == [])
  }

  /** The lookup table knows exactly the branches. */
  predicate Known(nodes: seq<Node>, branches: Branches) {
    && (forall key :: key in branches ==>
          && branches[key] < |nodes| && !nodes[branches[key]].kind.Capture?
          && nodes[branches[key]].parent == key.0 && nodes[branches[key]].title == key.1)
    && (forall i :: 0 <= i < |nodes| && !nodes[i].kind.Capture? ==>
          (nodes[i].parent, nodes[i].title) in branches && branches[(nodes[i].parent, nodes[i].title)] == i)
  }

  predicate NoCapture(nodes: seq<Node>, sequence: nat) {
    forall i :: 0 <= i < |nodes| ==> nodes[i].kind != Capture(sequence)
  }

  lemma AttachOrdered(nodes: seq<Node>, x: Node)
    requires Ordered(nodes) && x.children == [] && x.branchChildren == 0
    requires x.parent.Some? ==> x.parent.value < |nodes| && !nodes[x.parent.value].kind.Capture?
    ensures Ordered(Attach(nodes, x))
  {
    var after := Attach(nodes, x);
    AttachExtends(nodes, x);
    forall p, k | 0 <= p < |after| && 0 <= k < |after[p].children|
      ensures after[p].children[k] < |after|
      ensures k < after[p].branchChildren <==> !after[after[p].children[k]].kind.Capture?
    {
      if x.parent == Some(p) {
        var was := nodes[p];
        var at := if x.kind.Capture? then |was.children| else was.branchChildren;
        if k != at { var j := if k < at then k else k - 1; assert after[p].children[k] == was.children[j]; }
      } else if p < |nodes| {
        assert after[p] == nodes[p];
      }
    }
  }

  /** A branch that the table does not know has a name none of its siblings has. */
  lemma BranchIsNew(nodes: seq<Node>, branches: Branches, parent: Option<nat>, title: string, i: nat)
    requires Named(nodes) && Known(nodes, branches) && (parent, title) !in branches
    requires i < |nodes| && nodes[i].parent == parent
    ensures nodes[i].identifier != BranchIdentifier(parent, title)
  {
    if nodes[i].kind.Capture? {
      KindsDiffer(title, nodes[i].kind.sequence);
    } else {
      PrefixedDiffer(ORIGIN_PREFIX, nodes[i].title, title);
      PrefixedDiffer(SEGMENT_PREFIX, nodes[i].title, title);
    }
  }

  lemma CaptureIsNew(nodes: seq<Node>, parent: nat, sequence: nat, i: nat)
    requires Named(nodes) && NoCapture(nodes, sequence) && i < |nodes| && nodes[i].parent == Some(parent)
    ensures nodes[i].identifier != RequestIdentifier(sequence)
  {
    if nodes[i].kind.Capture? {
      RequestIdentifiersDiffer(nodes[i].kind.sequence, sequence);
    } else {
      KindsDiffer(nodes[i].title, sequence);
    }
  }

  lemma AttachDistinct(nodes: seq<Node>, x: Node)
    requires Slots(nodes) && DistinctSiblings(nodes) && (x.parent.Some? ==> x.parent.value < |nodes|)
    requires forall i :: 0 <= i < |nodes| && nodes[i].parent == x.parent ==> nodes[i].identifier != x.identifier
    ensures DistinctSiblings(Attach(nodes, x))
  {
    AttachExtends(nodes, x);
  }

  lemma AttachNamed(nodes: seq<Node>, x: Node)
    requires Slots(nodes) && Named(nodes) && (x.parent.Some? ==> x.parent.value < |nodes|) && Named([x])
    ensures Named(Attach(nodes, x))
  {
    assert [x][0] == x;
    AttachExtends(nodes, x);
    var after := Attach(nodes, x);
    forall i | 0 <= i < |nodes| ensures after[i].title == nodes[i].title {}
  }

  // ---------------------------------------------------------------------------------------
  // The whole tree

  ghost predicate Grown(roots: seq<nat>, nodes: seq<Node>, branches: Branches) {
    Shaped(roots, nodes) && Named(nodes) && Ordered(nodes) && Known(nodes, branches)
  }

  lemma AttachBranch(roots: seq<nat>, nodes: seq<Node>, branches: Branches, parent: Option<nat>, title: string)
    requires Grown(roots, nodes, branches) && (parent, title) !in branches
    requires parent.Some? ==> parent.value < |nodes| && !nodes[parent.value].kind.Capture?
    ensures var x := BranchNode(parent, title);
            Grown(AttachRoot(roots, nodes, x), Attach(nodes, x), branches[(parent, title) := |nodes|])
  {
    var x := BranchNode(parent, title);
    forall i | 0 <= i < |nodes| && nodes[i].parent == parent ensures nodes[i].identifier != x.identifier {
      BranchIsNew(nodes, branches, parent, title, i);
    }
    AttachLinked(roots, nodes, x);
    AttachDistinct(nodes, x);
    AttachNamed(nodes, x);
    AttachOrdered(nodes, x);
    AttachKnown(nodes, x, branches);
  }

  lemma AttachKnown(nodes: seq<Node>, x: Node, branches: Branches)
    requires Slots(nodes) && Known(nodes, branches) && (x.parent.Some? ==> x.parent.value < |nodes|)
    requires !x.kind.Capture? ==> (x.parent, x.title) !in branches
    ensures Known(Attach(nodes, x), if x.kind.Capture? then branches else branches[(x.parent, x.title) := |nodes|])
  {
    AttachExtends(nodes, x);
    var after := Attach(nodes, x);
    forall i | 0 <= i < |nodes| ensures after[i].title == nodes[i].title {}
  }

  lemma AttachCapture(roots: seq<nat>, nodes: seq<Node>, branches: Branches, parent: nat, title: string, sequence: nat)
    requires Grown(roots, nodes, branches) && NoCapture(nodes, sequence)
    requires parent < |nodes| && !nodes[parent].kind.Capture?
    ensures var x := CaptureNode(parent, title, sequence);
            Grown(roots, Attach(nodes, x), branches) && AttachRoot(roots, nodes, x) == roots
  {
    var x := CaptureNode(parent, title, sequence);
    forall i | 0 <= i < |nodes| && nodes[i].parent == Some(parent) ensures nodes[i].identifier != x.identifier {
      CaptureIsNew(nodes, parent, sequence, i);
    }
    AttachLinked(roots, nodes, x);
    AttachDistinct(nodes, x);
    AttachNamed(nodes, x);
    AttachOrdered(nodes, x);
    AttachKnown(nodes, x, branches);
  }

  function Bump(nodes: seq<Node>, id: nat): seq<Node>
    requires id < |nodes|
  {
    nodes[id := nodes[id].(leafCount := nodes[id].leafCount + 1)]
  }

  lemma BumpKeeps(roots: seq<nat>, nodes: seq<Node>, branches: Branches, id: nat)
    requires Grown(roots, nodes, branches) && id < |nodes|
    ensures Grown(roots, Bump(nodes, id), branches) && Extends(nodes, Bump(nodes, id))
  {
    var after := Bump(nodes, id);
    BumpLinked(roots, nodes, id);
    BumpNamed(nodes, branches, id);
    BumpOrdered(nodes, id);
  }

  lemma BumpLinked(roots: seq<nat>, nodes: seq<Node>, id: nat)
    requires Shaped(roots, nodes) && id < |nodes|
    ensures Shaped(roots, Bump(nodes, id)) && Extends(nodes, Bump(nodes, id))
  {
    hide Lists;
    var after := Bump(nodes, id);
    assert Extends(nodes, after);
    forall p | 0 <= p < |after| ensures Lists(after, after[p].children, Some(p)) {
      ListsSame(nodes, after, nodes[p].children, Some(p));
    }
    ListsSame(nodes, after, roots, None);
  }

  lemma BumpNamed(nodes: seq<Node>, branches: Branches, id: nat)
    requires Named(nodes) && Known(nodes, branches) && id < |nodes|
    ensures Named(Bump(nodes, id)) && Known(Bump(nodes, id), branches)
  {
  }

  lemma BumpOrdered(nodes: seq<Node>, id: nat)
    requires Ordered(nodes) && id < |nodes|
    ensures Ordered(Bump(nodes, id))
  {
    var after := Bump(nodes, id);
    forall p | 0 <= p < |after|
      ensures after[p].children == nodes[p].children && after[p].kind == nodes[p].kind
      ensures after[p].branchChildren == nodes[p].branchChildren
    {
    }
  }

  lemma ListsSame(nodes: seq<Node>, after: seq<Node>, ids: seq<nat>, owner: Option<nat>)
    requires Lists(nodes, ids, owner) && Extends(nodes, after) && |after| == |nodes|
    ensures Lists(after, ids, owner)
  {
    forall c: nat ensures c in ids <==> c < |after| && after[c].parent == owner {}
  }

  // ---------------------------------------------------------------------------------------
  // Counts

  /** The captures at or below a node. */
  function Leaves(nodes: seq<Node>, id: nat): set<nat>
    requires Rooted(nodes)
  {
    set c: nat | c < |nodes| && nodes[c].kind.Capture? && id in Trail(nodes, c)
  }

  /** Each node counts its captures; those in `pending` already count the one being inserted. */
  ghost predicate Counted(nodes: seq<Node>, pending: seq<nat>)
    requires Rooted(nodes)
  {
    forall i :: 0 <= i < |nodes| ==> nodes[i].leafCount == |Leaves(nodes, i)| + if i in pending then 1 else 0
  }

  lemma LeavesStay(nodes: seq<Node>, after: seq<Node>, id: nat)
    requires Rooted(nodes) && Rooted(after) && Extends(nodes, after)
    requires forall c :: |nodes| <= c < |after| ==> !after[c].kind.Capture?
    ensures Leaves(after, id) == Leaves(nodes, id)
  {
    forall c: nat ensures c in Leaves(after, id) <==> c in Leaves(nodes, id) {
      if c < |nodes| { TrailStays(nodes, after, c); }
    }
  }

  lemma BranchCounted(nodes: seq<Node>, x: Node, pending: seq<nat>)
    requires Slots(nodes) && Rooted(nodes) && (x.parent.Some? ==> x.parent.value < |nodes|)
    requires !x.kind.Capture? && x.leafCount == 0 && Counted(nodes, pending) && |nodes| !in pending
    ensures Rooted(Attach(nodes, x)) && Counted(Attach(nodes, x), pending)
  {
    var after := Attach(nodes, x);
    AttachExtends(nodes, x);
    AttachRooted(nodes, x);
    forall i | 0 <= i < |after|
      ensures after[i].leafCount == |Leaves(after, i)| + if i in pending then 1 else 0
    {
      LeavesStay(nodes, after, i);
      if i == |nodes| {
        assert Leaves(nodes, i) == {};
      } else {
        assert after[i].leafCount == nodes[i].leafCount;
      }
    }
  }

  lemma BumpCounted(nodes: seq<Node>, id: nat, pending: seq<nat>)
    requires Rooted(nodes) && id < |nodes| && Counted(nodes, pending) && id !in pending
    ensures Rooted(Bump(nodes, id)) && Counted(Bump(nodes, id), pending + [id])
  {
    var after := Bump(nodes, id);
    forall i | 0 <= i < |after|
      ensures after[i].leafCount == |Leaves(after, i)| + if i in pending + [id] then 1 else 0
    {
      LeavesStay(nodes, after, i);
    }
  }

  lemma CaptureCounted(nodes: seq<Node>, parent: nat, title: string, sequence: nat)
    requires Slots(nodes) && Rooted(nodes) && parent < |nodes| && Counted(nodes, Trail(nodes, parent))
    ensures var after := Attach(nodes, CaptureNode(parent, title, sequence));
            Rooted(after) && Counted(after, [])
  {
    var x := CaptureNode(parent, title, sequence);
    var after := Attach(nodes, x);
    AttachExtends(nodes, x);
    AttachRooted(nodes, x);
    forall i | 0 <= i < |after| ensures after[i].leafCount == |Leaves(after, i)| {
      LeavesCapture(nodes, x, i);
      if i < |nodes| {
        assert after[i].leafCount == nodes[i].leafCount;
        assert |nodes| !in Leaves(nodes, i);
      } else {
        assert Leaves(nodes, i) == {};
      }
    }
  }

  lemma LeavesCapture(nodes: seq<Node>, x: Node, i: nat)
    requires Slots(nodes) && Rooted(nodes) && x.kind.Capture? && x.parent.Some? && x.parent.value < |nodes|
    ensures var after := Attach(nodes, x);
            && Rooted(after)
            && Leaves(after, i) == Leaves(nodes, i) +
                 if i in Trail(nodes, x.parent.value) || i == |nodes| then {|nodes|} else {}
  {
    hide Path, Adopt;
    var after, n := Attach(nodes, x), |nodes|;
    AttachExtends(nodes, x);
    AttachRooted(nodes, x);
    TrailStays(nodes, after, x.parent.value);
    assert Trail(after, n) == Trail(nodes, x.parent.value) + [n];
    forall c: nat
      ensures c in Leaves(after, i) <==>
                c in Leaves(nodes, i) || (c == n && (i in Trail(nodes, x.parent.value) || i == n))
    {
      if c < n { TrailStays(nodes, after, c); }
    }
  }
}
