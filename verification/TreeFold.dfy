/** The request tree as a value: what taking in one request after another makes of an empty forest,
    and that the outcome is a tree of exactly these requests. */
module TreeFold {
  import opened Basics
  import opened RequestNames
  import opened TreePaths
  import opened TreeGrowth

  datatype Forest = Forest(roots: seq<nat>, nodes: seq<Node>, branches: Branches)

  /** A forest, and a place in it. */
  datatype Spot = Spot(forest: Forest, id: nat)

  predicate Fit(f: Forest) {
    Slots(f.nodes) && forall key :: key in f.branches ==> f.branches[key] < |f.nodes|
  }

  predicate Within(f: Forest, at: Option<nat>) { at.Some? ==> at.value < |f.nodes| }

  /** The branch of that title, made if there is none. */
  function Branch(f: Forest, at: Option<nat>, title: string): (s: Spot)
    requires Fit(f) && Within(f, at)
    ensures Fit(s.forest) && s.id < |s.forest.nodes| && |f.nodes| <= |s.forest.nodes|
  {
    if (at, title) in f.branches then Spot(f, f.branches[(at, title)])
    else
      var x := BranchNode(at, title);
      Spot(Forest(AttachRoot(f.roots, f.nodes, x), Attach(f.nodes, x), f.branches[(at, title) := |f.nodes|]), |f.nodes|)
  }

  /** One branch down, which then counts one request more. */
  function Enter(f: Forest, at: Option<nat>, title: string): (s: Spot)
    requires Fit(f) && Within(f, at)
    ensures Fit(s.forest) && s.id < |s.forest.nodes| && |f.nodes| <= |s.forest.nodes|
  {
    var s := Branch(f, at, title);
    Spot(s.forest.(nodes := Bump(s.forest.nodes, s.id)), s.id)
  }

  function Descend(f: Forest, origin: string, segments: seq<string>): (s: Spot)
    requires Fit(f)
    ensures Fit(s.forest) && s.id < |s.forest.nodes| && |f.nodes| <= |s.forest.nodes|
    decreases |segments|
  {
    if segments == [] then Enter(f, None, origin)
    else
      var s := Descend(f, origin, segments[..|segments| - 1]);
      Enter(s.forest, Some(s.id), segments[|segments| - 1])
  }

  function Add(f: Forest, e: Entry): (r: Forest)
    requires Fit(f)
    ensures Fit(r) && |r.nodes| > |f.nodes|
  {
    var s := Descend(f, e.origin, ParentSegments(e.segments));
    s.forest.(nodes := Attach(s.forest.nodes, CaptureNode(s.id, Label(e), e.sequence)))
  }

  /** The tree of these requests. */
  function Grow(entries: seq<Entry>): (f: Forest)
    ensures Fit(f) && (entries != [] ==> f.nodes != [])
    decreases |entries|
  {
    if entries == [] then Forest([], [], map[])
    else Add(Grow(entries[..|entries| - 1]), entries[|entries| - 1])
  }

  /** The node of each request: the last one made for it. */
  function Homes(entries: seq<Entry>): seq<nat>
    decreases |entries|
  {
    if entries == [] then [] else Homes(entries[..|entries| - 1]) + [|Grow(entries).nodes| - 1]
  }

  // ---------------------------------------------------------------------------------------
  // What such a tree is

  predicate DistinctSequences(entries: seq<Entry>) {
    forall i, j :: 0 <= i < j < |entries| ==> entries[i].sequence != entries[j].sequence
  }

  /** `home[k]` is the one node of the k-th request, under the path that request asks for, and
      there are no other capture nodes. */
  predicate Houses(nodes: seq<Node>, entries: seq<Entry>, home: seq<nat>)
    requires Rooted(nodes)
  {
    && |home| == |entries|
    && (forall k :: 0 <= k < |entries| ==>
          && home[k] < |nodes| && nodes[home[k]].kind == Capture(entries[k].sequence)
          && Path(nodes, home[k]) == RequestPath(entries[k]) && nodes[home[k]].title == Label(entries[k]))
    && (forall c :: 0 <= c < |nodes| && nodes[c].kind.Capture? ==> c in home)
  }

  lemma HousesStay(nodes: seq<Node>, after: seq<Node>, entries: seq<Entry>, home: seq<nat>)
    requires Rooted(nodes) && Rooted(after) && Extends(nodes, after) && SameTitles(nodes, after)
    requires Houses(nodes, entries, home)
    requires forall c :: |nodes| <= c < |after| ==> !after[c].kind.Capture?
    ensures Houses(after, entries, home)
  {
    hide Path, Trail, RequestPath, Label;
    forall k | 0 <= k < |entries| ensures Path(after, home[k]) == RequestPath(entries[k]) {
      TrailStays(nodes, after, home[k]);
    }
  }

  lemma HousesOneMore(nodes: seq<Node>, after: seq<Node>, entries: seq<Entry>, home: seq<nat>, e: Entry)
    requires Rooted(nodes) && Rooted(after) && Extends(nodes, after) && SameTitles(nodes, after)
    requires Houses(nodes, entries, home)
    requires |after| == |nodes| + 1 && after[|nodes|].kind == Capture(e.sequence)
    requires Path(after, |nodes|) == RequestPath(e) && after[|nodes|].title == Label(e)
    ensures var id: nat := |nodes|; Houses(after, entries + [e], home + [id])
  {
    hide Path, Trail, RequestPath, Label;
    forall k | 0 <= k < |entries| ensures Path(after, home[k]) == RequestPath(entries[k]) {
      TrailStays(nodes, after, home[k]);
    }
  }

  /** A request that is not among the entries is not in the tree. */
  lemma NotHoused(nodes: seq<Node>, entries: seq<Entry>, home: seq<nat>, e: Entry)
    requires Rooted(nodes) && Houses(nodes, entries, home) && DistinctSequences(entries + [e])
    ensures NoCapture(nodes, e.sequence)
  {
    hide Path, Trail, RequestPath, Label;
    forall c | 0 <= c < |nodes| ensures nodes[c].kind != Capture(e.sequence) {
      if nodes[c].kind.Capture? {
        var k :| 0 <= k < |home| && home[k] == c;
        assert (entries + [e])[k] == entries[k] && (entries + [e])[|entries|] == e;
      }
    }
  }

  predicate NonEmpty(nodes: seq<Node>) { forall i :: 0 <= i < |nodes| ==> nodes[i].leafCount >= 1 }

  predicate IsBranch(nodes: seq<Node>, at: Option<nat>) {
    at.Some? ==> at.value < |nodes| && !nodes[at.value].kind.Capture?
  }

  /** While a request is on its way in: `at` is the last branch of its path so far, and the
      branches down to it count the request already. */
  ghost predicate Entering(f: Forest, entries: seq<Entry>, home: seq<nat>, at: Option<nat>) {
    && Grown(f.roots, f.nodes, f.branches) && Houses(f.nodes, entries, home) && IsBranch(f.nodes, at)
    && NonEmpty(f.nodes) && Counted(f.nodes, TrailOf(f.nodes, at))
  }

  /** One branch further, before that branch counts the request. */
  ghost predicate Reaching(f: Forest, entries: seq<Entry>, home: seq<nat>, at: Option<nat>, id: nat) {
    && Grown(f.roots, f.nodes, f.branches) && Houses(f.nodes, entries, home)
    && IsBranch(f.nodes, at) && IsBranch(f.nodes, Some(id)) && f.nodes[id].parent == at
    && (forall i :: 0 <= i < |f.nodes| && i != id ==> f.nodes[i].leafCount >= 1)
    && Counted(f.nodes, TrailOf(f.nodes, at))
  }

  lemma Fits(f: Forest)
    requires Grown(f.roots, f.nodes, f.branches)
    ensures Rooted(f.nodes) && Fit(f)
  {
  }

  lemma Branched(f: Forest, entries: seq<Entry>, home: seq<nat>, at: Option<nat>, title: string)
    requires Entering(f, entries, home, at) && Fit(f)
    ensures var s := Branch(f, at, title);
            && Reaching(s.forest, entries, home, at, s.id)
            && s.forest.nodes[s.id].identifier == BranchIdentifier(at, title)
            && PathOf(s.forest.nodes, at) == PathOf(f.nodes, at)
  {
    hide Houses, Counted, Path, Trail;
    if (at, title) !in f.branches { NewBranch(f, entries, home, at, title); }
  }

  lemma NewBranch(f: Forest, entries: seq<Entry>, home: seq<nat>, at: Option<nat>, title: string)
    requires Entering(f, entries, home, at) && (at, title) !in f.branches && Fit(f)
    ensures var s := Branch(f, at, title);
            && Reaching(s.forest, entries, home, at, s.id)
            && s.forest.nodes[s.id].identifier == BranchIdentifier(at, title)
            && PathOf(s.forest.nodes, at) == PathOf(f.nodes, at)
  {
    hide Grown, Houses, Counted;
    Fits(f);
    var nodes, x := f.nodes, BranchNode(at, title);
    var after := Attach(nodes, x);
    AttachBranch(f.roots, nodes, f.branches, at, title);
    Fits(Branch(f, at, title).forest);
    AttachExtends(nodes, x);
    AttachTitles(nodes, x);
    HousesStay(nodes, after, entries, home);
    if at.Some? { TrailStays(nodes, after, at.value); }
    BranchCounted(nodes, x, TrailOf(nodes, at));
    forall i | 0 <= i < |nodes| ensures after[i].leafCount == nodes[i].leafCount {}
  }

  lemma Entered(f: Forest, entries: seq<Entry>, home: seq<nat>, at: Option<nat>, title: string)
    requires Entering(f, entries, home, at) && Fit(f)
    ensures var s := Enter(f, at, title);
            && Entering(s.forest, entries, home, Some(s.id))
            && Path(s.forest.nodes, s.id) == PathOf(f.nodes, at) + [BranchIdentifier(at, title)]
  {
    hide Grown, Houses, Counted, Path, Trail;
    Branched(f, entries, home, at, title);
    CountBranch(Branch(f, at, title).forest, entries, home, at, Branch(f, at, title).id);
  }

  lemma CountBranch(f: Forest, entries: seq<Entry>, home: seq<nat>, at: Option<nat>, id: nat)
    requires Reaching(f, entries, home, at, id)
    ensures var after := Bump(f.nodes, id);
            && Entering(f.(nodes := after), entries, home, Some(id))
            && PathOf(after, Some(id)) == PathOf(f.nodes, at) + [f.nodes[id].identifier]
  {
    hide Grown, Houses, Counted, Path, Trail;
    Fits(f);
    var after := Bump(f.nodes, id);
    BumpKeeps(f.roots, f.nodes, f.branches, id);
    Fits(f.(nodes := after));
    HousesStay(f.nodes, after, entries, home);
    TrailStays(f.nodes, after, id);
    OneLevelDown(f.nodes, id);
    BumpCounted(f.nodes, id, TrailOf(f.nodes, at));
  }

  lemma {:induction false} Descended(
      f: Forest, entries: seq<Entry>, home: seq<nat>, origin: string, segments: seq<string>)
    requires Entering(f, entries, home, None) && Fit(f)
    ensures var s := Descend(f, origin, segments);
            && Entering(s.forest, entries, home, Some(s.id))
            && Path(s.forest.nodes, s.id) == [OriginIdentifier(origin)] + BranchNames(segments)
    decreases |segments|
  {
    hide Entering, Path, Trail;
    if segments == [] {
      Entered(f, entries, home, None, origin);
    } else {
      var front, last := segments[..|segments| - 1], segments[|segments| - 1];
      Descended(f, entries, home, origin, front);
      var s := Descend(f, origin, front);
      Entered(s.forest, entries, home, Some(s.id), last);
    }
  }

  /** The request itself arrives under the branch its path ends in. */
  lemma NewCapture(f: Forest, entries: seq<Entry>, home: seq<nat>, at: nat, e: Entry)
    requires Entering(f, entries, home, Some(at)) && Fit(f) && DistinctSequences(entries + [e])
    requires Path(f.nodes, at) == ParentPath(e)
    ensures var id: nat := |f.nodes|;
            var after := Attach(f.nodes, CaptureNode(at, Label(e), e.sequence));
            Entering(f.(nodes := after), entries + [e], home + [id], None)
  {
    hide Grown, Houses, Counted;
    Fits(f);
    var nodes, x := f.nodes, CaptureNode(at, Label(e), e.sequence);
    var after := Attach(nodes, x);
    NotHoused(nodes, entries, home, e);
    AttachCapture(f.roots, nodes, f.branches, at, Label(e), e.sequence);
    Fits(f.(nodes := after));
    AttachExtends(nodes, x);
    AttachTitles(nodes, x);
    TrailStays(nodes, after, at);
    assert Path(after, |nodes|) == RequestPath(e);
    HousesOneMore(nodes, after, entries, home, e);
    CaptureCounted(nodes, at, Label(e), e.sequence);
    forall i | 0 <= i < |nodes| ensures after[i].leafCount == nodes[i].leafCount {}
  }

  lemma Added(f: Forest, entries: seq<Entry>, home: seq<nat>, e: Entry)
    requires Entering(f, entries, home, None) && Fit(f) && DistinctSequences(entries + [e])
    ensures var after := Add(f, e);
            var id: nat := |after.nodes| - 1;
            Entering(after, entries + [e], home + [id], None)
  {
    hide Entering, Path, Trail, DistinctSequences, ParentSegments, Houses, Descend, Fit;
    Descended(f, entries, home, e.origin, ParentSegments(e.segments));
    var s := Descend(f, e.origin, ParentSegments(e.segments));
    NewCapture(s.forest, entries, home, s.id, e);
  }

  lemma DescendMore(f: Forest, origin: string, front: seq<string>, title: string)
    requires Fit(f)
    ensures var s := Descend(f, origin, front);
            Descend(f, origin, front + [title]) == Enter(s.forest, Some(s.id), title)
  {
    hide Fit, Enter;
    assert (front + [title])[..|front + [title]| - 1] == front;
  }

  lemma DescendNone(f: Forest, origin: string)
    requires Fit(f)
    ensures Descend(f, origin, []) == Enter(f, None, origin)
  {
  }

  lemma GrowMore(front: seq<Entry>, e: Entry)
    ensures Grow(front + [e]) == Add(Grow(front), e)
    ensures Homes(front + [e]) == Homes(front) + [|Add(Grow(front), e).nodes| - 1]
  {
    hide Add;
    assert (front + [e])[..|front + [e]| - 1] == front;
  }

  lemma GrowNone()
    ensures Grow([]) == Forest([], [], map[])
  {
  }

  lemma EmptyHolds()
    ensures Entering(Grow([]), [], Homes([]), None)
  {
  }

  lemma DistinctFront(front: seq<Entry>, e: Entry)
    requires DistinctSequences(front + [e])
    ensures DistinctSequences(front)
  {
    assert forall i :: 0 <= i < |front| ==> front[i] == (front + [e])[i];
  }

  /** The tree of some requests holds exactly them, each under its own path. */
  lemma {:induction false} GrowHolds(entries: seq<Entry>)
    requires DistinctSequences(entries)
    ensures Entering(Grow(entries), entries, Homes(entries), None)
    decreases |entries|
  {
    hide Entering, Add, DistinctSequences, Grow, Homes, Fit;
    if entries == [] {
      EmptyHolds();
    } else {
      var front, e := entries[..|entries| - 1], entries[|entries| - 1];
      assert front + [e] == entries;
      DistinctFront(front, e);
      GrowHolds(front);
      Added(Grow(front), front, Homes(front), e);
      GrowMore(front, e);
    }
  }

  // ---------------------------------------------------------------------------------------
  // The tree, read downwards

  /** A branch's title is its identifier without the prefix. */
  lemma BranchTitle(nodes: seq<Node>, i: nat, title: string)
    requires Named(nodes) && i < |nodes|
    ensures nodes[i].identifier == "origin:" + title ==> nodes[i].title == title
    ensures nodes[i].identifier == "segment:" + title ==> nodes[i].title == title
  {
    var id := nodes[i].identifier;
    match nodes[i].kind
    case Capture(q) => assert id[0] == 'r';
    case Origin => assert id[0] == 'o' && id[7..] == nodes[i].title; assert ("origin:" + title)[7..] == title;
    case Segment => assert id[0] == 's' && id[8..] == nodes[i].title; assert ("segment:" + title)[8..] == title;
  }

  /** The j-th segment, counted from one. */
  function TitleAt(e: Entry, j: int): string {
    if j == 0 then e.origin else if 1 <= j <= |e.segments| then e.segments[j - 1] else "/"
  }

  lemma TitleAtLevel(nodes: seq<Node>, id: nat, e: Entry, j: nat)
    requires Rooted(nodes) && Named(nodes) && id < |nodes| && nodes[id].title == Label(e)
    requires Path(nodes, id) == RequestPath(e) && j <= Levels(e)
    ensures |Trail(nodes, id)| == Levels(e) + 1 && Trail(nodes, id)[j] < |nodes|
    ensures nodes[Trail(nodes, id)[j]].title == TitleAt(e, j)
  {
    hide RequestPath, Named;
    PathShape(e);
    assert |Path(nodes, id)| == |Trail(nodes, id)|;
    if j < Levels(e) {
      TrailWithin(nodes, id, j);
      var a := Trail(nodes, id)[j];
      OneLevelDown(nodes, a);
      assert Path(nodes, a)[j] == nodes[a].identifier;
      BranchTitle(nodes, a, TitleAt(e, j));
    }
  }

  /** One request's node. */
  lemma HeldAt(entries: seq<Entry>, k: nat)
    requires DistinctSequences(entries) && k < |entries|
    ensures var nodes, home := Grow(entries).nodes, Homes(entries);
            && Rooted(nodes) && Named(nodes) && DistinctSiblings(nodes)
            && |home| == |entries| && home[k] < |nodes| && nodes[home[k]].kind.Capture?
            && Path(nodes, home[k]) == RequestPath(entries[k]) && nodes[home[k]].title == Label(entries[k])
  {
    hide Grow, Homes, Path, RequestPath, Label, Counted, Ordered, Trail;
    GrowHolds(entries);
  }

  /** From its root down, the titles above a request spell its URL: the origin, each segment in
      turn, and a slash where there are no segments. */
  lemma TitlesSpellTheUrl(entries: seq<Entry>, k: nat)
    requires DistinctSequences(entries) && k < |entries|
    ensures var nodes, home, e := Grow(entries).nodes, Homes(entries), entries[k];
            && Rooted(nodes) && |home| == |entries| && home[k] < |nodes|
            && var trail := Trail(nodes, home[k]);
            && |trail| == Levels(e) + 1 && (forall j :: 0 <= j < |trail| ==> trail[j] < |nodes|)
            && nodes[trail[0]].title == e.origin
            && (if e.segments == [] then nodes[trail[1]].title == "/"
                else forall j :: 1 <= j < |trail| ==> nodes[trail[j]].title == e.segments[j - 1])
  {
    hide Grow, Homes, Trail, Path, RequestPath, Label, Named, DistinctSiblings, DistinctSequences;
    HeldAt(entries, k);
    TitlesSpell(Grow(entries).nodes, Homes(entries)[k], entries[k]);
  }

  lemma TitlesSpell(nodes: seq<Node>, id: nat, e: Entry)
    requires Rooted(nodes) && Named(nodes) && id < |nodes| && nodes[id].title == Label(e)
    requires Path(nodes, id) == RequestPath(e)
    ensures var trail := Trail(nodes, id);
            && |trail| == Levels(e) + 1 && (forall j :: 0 <= j < |trail| ==> trail[j] < |nodes|)
            && nodes[trail[0]].title == e.origin
            && (if e.segments == [] then nodes[trail[1]].title == "/"
                else forall j :: 1 <= j < |trail| ==> nodes[trail[j]].title == e.segments[j - 1])
  {
    hide Trail, Path, RequestPath, Label, Named;
    TitleAtLevel(nodes, id, e, 0);
    forall j: nat | j <= Levels(e)
      ensures Trail(nodes, id)[j] < |nodes| && nodes[Trail(nodes, id)[j]].title == TitleAt(e, j)
    {
      TitleAtLevel(nodes, id, e, j);
    }
  }

  /** Requests stand under one node exactly when their URLs differ in nothing but the last segment. */
  lemma FoldersAreShared(entries: seq<Entry>, i: nat, j: nat)
    requires DistinctSequences(entries) && i < |entries| && j < |entries|
    ensures var nodes, home := Grow(entries).nodes, Homes(entries);
            && |home| == |entries| && home[i] < |nodes| && home[j] < |nodes|
            && (nodes[home[i]].parent == nodes[home[j]].parent <==> SameFolder(entries[i], entries[j]))
  {
    hide Grow, Homes, Trail, Path, Label, SameFolder, ParentPath, RequestPath, Named, DistinctSequences;
    HeldAt(entries, i);
    HeldAt(entries, j);
    var nodes, a, b := Grow(entries).nodes, Homes(entries)[i], Homes(entries)[j];
    SharedParent(entries[i], entries[j]);
    UnderItsFolder(nodes, a, entries[i]);
    UnderItsFolder(nodes, b, entries[j]);
    if ParentPath(entries[i]) == ParentPath(entries[j]) {
      PathsAreUnique(nodes, nodes[a].parent.value, nodes[b].parent.value);
    }
  }

  lemma UnderItsFolder(nodes: seq<Node>, id: nat, e: Entry)
    requires Rooted(nodes) && Named(nodes) && id < |nodes| && nodes[id].kind.Capture?
    requires Path(nodes, id) == RequestPath(e)
    ensures nodes[id].parent.Some? && Path(nodes, nodes[id].parent.value) == ParentPath(e)
  {
    OneLevelDown(nodes, id);
    var p := Path(nodes, id);
    assert p[..|p| - 1] == ParentPath(e);
  }
}
