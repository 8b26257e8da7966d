/** The order of siblings in the request tree: branches as their first requests came in, then the
    captures as they came in themselves. */
module TreeOrder {
  import opened Basics
  import opened RequestNames
  import opened TreePaths
  import opened TreeGrowth
  import opened TreeFold

  predicate Ascending(ids: seq<nat>) { forall i, j :: 0 <= i < j < |ids| ==> ids[i] < ids[j] }

  predicate Below(ids: seq<nat>, n: nat) { forall i :: 0 <= i < |ids| ==> ids[i] < n }

  /** Younger siblings stand behind older ones of their own sort. */
  predicate SortedChildren(p: Node, n: nat) {
    && Below(p.children, n)
    && forall i, j :: 0 <= i < j < |p.children| && (j < p.branchChildren || p.branchChildren <= i) ==>
         p.children[i] < p.children[j]
  }

  predicate Chronological(roots: seq<nat>, nodes: seq<Node>) {
    && Ascending(roots) && Below(roots, |nodes|)
    && forall p :: 0 <= p < |nodes| ==> SortedChildren(nodes[p], |nodes|)
  }

  /** The first request made after `b` is below `b`. */
  predicate Opens(nodes: seq<Node>, home: seq<nat>, b: nat, k: int)
    requires Rooted(nodes)
  {
    0 <= k < |home| && Below(home[..k], b) && home[k] < |nodes| && b in Trail(nodes, home[k])
  }

  /** Every branch came about for the next request that was taken in. */
  ghost predicate Opened(nodes: seq<Node>, home: seq<nat>, at: Option<nat>)
    requires Rooted(nodes) && IsBranch(nodes, at)
  {
    forall b: nat :: b < |nodes| && !nodes[b].kind.Capture? ==>
      (exists k :: Opens(nodes, home, b, k)) || (b in TrailOf(nodes, at) && Below(home, b))
  }

  ghost predicate InOrder(f: Forest, home: seq<nat>, at: Option<nat>) {
    && Rooted(f.nodes) && IsBranch(f.nodes, at)
    && Chronological(f.roots, f.nodes) && Ascending(home) && Below(home, |f.nodes|)
    && Opened(f.nodes, home, at)
  }

  lemma AttachInOrder(roots: seq<nat>, nodes: seq<Node>, x: Node)
    requires Slots(nodes) && (x.parent.Some? ==> x.parent.value < |nodes|) && x.children == []
    requires Chronological(roots, nodes)
    ensures Chronological(AttachRoot(roots, nodes, x), Attach(nodes, x))
  {
    var after := Attach(nodes, x);
    forall p | 0 <= p < |after| ensures SortedChildren(after[p], |after|) {
      if p < |nodes| {
        assert SortedChildren(nodes[p], |nodes|);
        if x.parent == Some(p) { AdoptSorted(nodes[p], |nodes|, x.kind.Capture?); }
      }
    }
  }

  lemma AdoptSorted(p: Node, n: nat, capture: bool)
    requires p.branchChildren <= |p.children| && SortedChildren(p, n)
    ensures SortedChildren(Adopt(p, n, capture), n + 1)
  {
    var at := if capture then |p.children| else p.branchChildren;
    var after := Adopt(p, n, capture);
    assert forall k :: 0 <= k < |after.children| ==>
        after.children[k] == if k < at then p.children[k] else if k == at then n else p.children[k - 1];
  }

  lemma OpensStay(nodes: seq<Node>, after: seq<Node>, home: seq<nat>, b: nat)
    requires Rooted(nodes) && Rooted(after) && Extends(nodes, after) && Below(home, |nodes|)
    requires exists k :: Opens(nodes, home, b, k)
    ensures exists k :: Opens(after, home, b, k)
  {
    var k :| Opens(nodes, home, b, k);
    TrailStays(nodes, after, home[k]);
    assert Opens(after, home, b, k);
  }

  /** One branch further down, whether it was there or is new. */
  lemma OpenedFurther(nodes: seq<Node>, after: seq<Node>, home: seq<nat>, at: Option<nat>, id: nat)
    requires Rooted(nodes) && Rooted(after) && Extends(nodes, after) && Below(home, |nodes|)
    requires IsBranch(nodes, at) && Opened(nodes, home, at)
    requires IsBranch(after, Some(id)) && after[id].parent == at && |nodes| <= |after| <= |nodes| + 1
    requires |after| == |nodes| + 1 ==> id == |nodes|
    ensures Opened(after, home, Some(id))
  {
    OneLevelDown(after, id);
    if at.Some? { TrailStays(nodes, after, at.value); }
    forall b: nat | b < |after| && !after[b].kind.Capture?
      ensures (exists k :: Opens(after, home, b, k)) || (b in TrailOf(after, Some(id)) && Below(home, b))
    {
      if b < |nodes| && exists k :: Opens(nodes, home, b, k) { OpensStay(nodes, after, home, b); }
    }
  }

  /** What going down one branch does to the nodes. */
  lemma EnterFacts(f: Forest, entries: seq<Entry>, home: seq<nat>, at: Option<nat>, title: string)
    requires Entering(f, entries, home, at) && Fit(f)
    ensures var b, s := Branch(f, at, title), Enter(f, at, title);
            && Rooted(s.forest.nodes) && Slots(f.nodes) && IsBranch(s.forest.nodes, Some(s.id))
            && s.forest.nodes[s.id].parent == at && Extends(f.nodes, b.forest.nodes)
            && (at.Some? ==> at.value < |f.nodes|)
  {
    hide Houses, Counted, Path, Trail;
    Entered(f, entries, home, at, title);
    Branched(f, entries, home, at, title);
    if (at, title) !in f.branches { AttachExtends(f.nodes, BranchNode(at, title)); }
  }

  lemma EnteredInOrder(f: Forest, entries: seq<Entry>, home: seq<nat>, at: Option<nat>, title: string)
    requires Entering(f, entries, home, at) && Fit(f) && InOrder(f, home, at)
    ensures InOrder(Enter(f, at, title).forest, home, Some(Enter(f, at, title).id))
  {
    hide Entering, Fit, Path, Trail, Opened, Chronological, Attach;
    EnterFacts(f, entries, home, at, title);
    var b, s := Branch(f, at, title), Enter(f, at, title);
    if (at, title) !in f.branches { AttachInOrder(f.roots, f.nodes, BranchNode(at, title)); }
    BumpInOrder(b.forest.roots, b.forest.nodes, b.id);
    OpenedFurther(f.nodes, s.forest.nodes, home, at, s.id);
  }

  lemma BumpInOrder(roots: seq<nat>, nodes: seq<Node>, id: nat)
    requires Chronological(roots, nodes) && id < |nodes|
    ensures Chronological(roots, Bump(nodes, id)) && Extends(nodes, Bump(nodes, id))
  {
    var after := Bump(nodes, id);
    forall p | 0 <= p < |after| ensures SortedChildren(after[p], |after|) {
      assert SortedChildren(nodes[p], |nodes|);
    }
  }

  lemma {:induction false} DescendedInOrder(f: Forest, entries: seq<Entry>, home: seq<nat>, origin: string,
                                            segments: seq<string>)
    requires Entering(f, entries, home, None) && Fit(f) && InOrder(f, home, None)
    ensures var s := Descend(f, origin, segments);
            Entering(s.forest, entries, home, Some(s.id)) && InOrder(s.forest, home, Some(s.id))
    decreases |segments|
  {
    hide Entering, InOrder, Fit, Enter;
    Descended(f, entries, home, origin, segments);
    if segments == [] {
      EnteredInOrder(f, entries, home, None, origin);
    } else {
      var front, last := segments[..|segments| - 1], segments[|segments| - 1];
      DescendedInOrder(f, entries, home, origin, front);
      var s := Descend(f, origin, front);
      EnteredInOrder(s.forest, entries, home, Some(s.id), last);
    }
  }

  /** The request that was on its way in has arrived. */
  lemma OpenedCapture(nodes: seq<Node>, home: seq<nat>, x: Node)
    requires Rooted(nodes) && Slots(nodes) && x.kind.Capture? && IsBranch(nodes, x.parent) && x.parent.Some?
    requires Below(home, |nodes|) && Opened(nodes, home, x.parent)
    ensures Rooted(Attach(nodes, x)) && var id: nat := |nodes|; Opened(Attach(nodes, x), home + [id], None)
  {
    var after, id: nat := Attach(nodes, x), |nodes|;
    AttachExtends(nodes, x);
    AttachRooted(nodes, x);
    OneLevelDown(after, id);
    TrailStays(nodes, after, x.parent.value);
    var more := home + [id];
    forall b: nat | b < |after| && !after[b].kind.Capture? ensures exists k :: Opens(after, more, b, k) {
      if exists k :: Opens(nodes, home, b, k) {
        var k :| Opens(nodes, home, b, k);
        TrailStays(nodes, after, home[k]);
        assert more[..k] == home[..k];
        assert Opens(after, more, b, k);
      } else {
        assert more[..|home|] == home;
        assert Opens(after, more, b, |home|);
      }
    }
  }

  lemma AddedInOrder(f: Forest, entries: seq<Entry>, home: seq<nat>, e: Entry)
    requires Entering(f, entries, home, None) && Fit(f) && InOrder(f, home, None)
    ensures var after := Add(f, e);
            var id: nat := |after.nodes| - 1;
            InOrder(after, home + [id], None)
  {
    hide Entering, Opened, Chronological, Trail, Descend, ParentSegments, Attach, Slots;
    DescendedInOrder(f, entries, home, e.origin, ParentSegments(e.segments));
    var s := Descend(f, e.origin, ParentSegments(e.segments));
    var x := CaptureNode(s.id, Label(e), e.sequence);
    AttachInOrder(s.forest.roots, s.forest.nodes, x);
    OpenedCapture(s.forest.nodes, home, x);
  }

  lemma {:induction false} GrowsInOrder(entries: seq<Entry>)
    requires DistinctSequences(entries)
    ensures InOrder(Grow(entries), Homes(entries), None)
    decreases |entries|
  {
    hide Entering, InOrder, Add, DistinctSequences, Grow, Homes, Fit;
    if entries == [] {
      NothingInOrder();
    } else {
      var front, e := entries[..|entries| - 1], entries[|entries| - 1];
      assert front + [e] == entries;
      DistinctFront(front, e);
      GrowsInOrder(front);
      GrowHolds(front);
      AddedInOrder(Grow(front), front, Homes(front), e);
      GrowMore(front, e);
    }
  }

  lemma NothingInOrder()
    ensures InOrder(Grow([]), Homes([]), None)
  {
  }

  /** Some request comes in under `first` before any does under `second`. */
  predicate ComesFirst(entries: seq<Entry>, first: seq<string>, second: seq<string>) {
    exists k :: 0 <= k < |entries| && first <= RequestPath(entries[k]) &&
      forall j :: 0 <= j <= k ==> !(second <= RequestPath(entries[j]))
  }

  /** A node below which some request is stands on that request's trail. */
  lemma OnTrail(nodes: seq<Node>, id: nat, x: nat)
    requires Rooted(nodes) && DistinctSiblings(nodes) && id < |nodes| && x < |nodes|
    requires Path(nodes, x) <= Path(nodes, id)
    ensures x in Trail(nodes, id) && x <= id
  {
    var k := |Path(nodes, x)| - 1;
    TrailWithin(nodes, id, k);
    PathsAreUnique(nodes, Trail(nodes, id)[k], x);
  }

  /** Branches that stand side by side stand as their first requests came in. */
  lemma OlderComesFirst(nodes: seq<Node>, entries: seq<Entry>, home: seq<nat>, x: nat, y: nat)
    requires Rooted(nodes) && DistinctSiblings(nodes) && Houses(nodes, entries, home) && Opened(nodes, home, None)
    requires x < y < |nodes| && nodes[x].parent == nodes[y].parent && !nodes[x].kind.Capture?
    ensures ComesFirst(entries, Path(nodes, x), Path(nodes, y))
  {
    hide Path, Trail, DistinctSiblings, RequestPath, Label;
    var k :| Opens(nodes, home, x, k);
    TrailLevel(nodes, home[k], x);
    TrailWithin(nodes, home[k], |Trail(nodes, x)| - 1);
    assert Path(nodes, x) <= RequestPath(entries[k]);
    assert forall j :: 0 <= j < k ==> home[..k][j] == home[j];
    forall j | 0 <= j <= k ensures !(Path(nodes, y) <= RequestPath(entries[j])) {
      if Path(nodes, y) <= RequestPath(entries[j]) {
        OnTrail(nodes, home[j], y);
        if j == k { SiblingsPart(nodes, home[k], x, y); }
      }
    }
  }

  lemma SiblingsPart(nodes: seq<Node>, id: nat, x: nat, y: nat)
    requires Rooted(nodes) && id < |nodes| && x < |nodes| && y < |nodes| && nodes[x].parent == nodes[y].parent
    requires x in Trail(nodes, id) && y in Trail(nodes, id)
    ensures x == y
  {
    TrailLevel(nodes, id, x);
    TrailLevel(nodes, id, y);
  }

  /** The order of siblings in the tree of some requests. Branches come before captures; two
      branches stand as their first requests came in, and two captures as they came in. */
  lemma SiblingOrder(entries: seq<Entry>, owner: Option<nat>, x: nat, y: nat)
    requires DistinctSequences(entries)
    requires var f := Grow(entries);
             && (owner.Some? ==> owner.value < |f.nodes|) && x < |f.nodes| && y < |f.nodes|
             && Precedes(if owner.None? then f.roots else f.nodes[owner.value].children, x, y)
    ensures var nodes := Grow(entries).nodes;
            && (nodes[x].kind.Capture? ==> nodes[y].kind.Capture?)
            && (!nodes[y].kind.Capture? ==> Rooted(nodes) && ComesFirst(entries, Path(nodes, x), Path(nodes, y)))
            && (nodes[x].kind.Capture? ==>
                  exists k, j :: 0 <= k < j < |entries| &&
                    nodes[x].kind == Capture(entries[k].sequence) && nodes[y].kind == Capture(entries[j].sequence))
  {
    hide Path, Trail, DistinctSiblings, RequestPath, Grow, Homes, DistinctSequences, Counted, ComesFirst, Opened, Named;
    GrowsInOrder(entries);
    GrowHolds(entries);
    var f, home := Grow(entries), Homes(entries);
    var nodes := f.nodes;
    var siblings := if owner.None? then f.roots else nodes[owner.value].children;
    Listed(nodes, siblings, owner);
    if owner.None? { RootsAreBranches(f.roots, nodes, f.branches); }
    var i, j :| 0 <= i < j < |siblings| && siblings[i] == x && siblings[j] == y;
    if !nodes[y].kind.Capture? {
      OlderComesFirst(nodes, entries, home, x, y);
    } else if nodes[x].kind.Capture? {
      CapturesInOrder(nodes, entries, home, x, y);
    }
  }

  lemma RootsAreBranches(roots: seq<nat>, nodes: seq<Node>, branches: Branches)
    requires Grown(roots, nodes, branches)
    ensures forall i :: 0 <= i < |nodes| && nodes[i].parent.None? ==> !nodes[i].kind.Capture?
  {
  }

  lemma CapturesInOrder(nodes: seq<Node>, entries: seq<Entry>, home: seq<nat>, x: nat, y: nat)
    requires Rooted(nodes) && Houses(nodes, entries, home) && Ascending(home)
    requires x < y < |nodes| && nodes[x].kind.Capture? && nodes[y].kind.Capture?
    ensures exists k, j :: 0 <= k < j < |entries| &&
              nodes[x].kind == Capture(entries[k].sequence) && nodes[y].kind == Capture(entries[j].sequence)
  {
    hide Path, Trail, RequestPath, Label;
    var a :| 0 <= a < |home| && home[a] == x;
    var b :| 0 <= b < |home| && home[b] == y;
    assert nodes[x].kind == Capture(entries[a].sequence) && nodes[y].kind == Capture(entries[b].sequence);
  }
}
