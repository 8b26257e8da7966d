/** The request tree's arena: nodes that know their parent and their children, and the paths of
    identifiers that name them. */
module TreePaths {
  import opened Basics

  datatype Kind = Origin | Segment | Capture(sequence: nat)

  datatype Node = Node(
    identifier: string,
    title: string,
    kind: Kind,
    parent: Option<nat>,
    children: seq<nat>,
    branchChildren: nat,
    leafCount: nat)

  // ---------------------------------------------------------------------------------------
  // Up: trails and paths

  /** A parent is older than its children, so every walk to the root ends. */
  predicate Rooted(nodes: seq<Node>) {
    forall i :: 0 <= i < |nodes| && nodes[i].parent.Some? ==> nodes[i].parent.value < i
  }

  /** The nodes from a root down to `id`. */
  function Trail(nodes: seq<Node>, id: nat): (t: seq<nat>)
    requires Rooted(nodes) && id < |nodes|
    ensures t != [] && t[|t| - 1] == id && forall k :: 0 <= k < |t| ==> t[k] <= id
    decreases id
  {
    if nodes[id].parent.None? then [id] else Trail(nodes, nodes[id].parent.value) + [id]
  }

  /** What names `id`: the identifiers along its trail. */
  function Path(nodes: seq<Node>, id: nat): (p: seq<string>)
    requires Rooted(nodes) && id < |nodes|
    ensures |p| == |Trail(nodes, id)|
    decreases id
  {
    if nodes[id].parent.None? then [nodes[id].identifier]
    else Path(nodes, nodes[id].parent.value) + [nodes[id].identifier]
  }

  function TrailOf(nodes: seq<Node>, at: Option<nat>): seq<nat>
    requires Rooted(nodes) && (at.Some? ==> at.value < |nodes|)
  {
    if at.None? then [] else Trail(nodes, at.value)
  }

  function PathOf(nodes: seq<Node>, at: Option<nat>): seq<string>
    requires Rooted(nodes) && (at.Some? ==> at.value < |nodes|)
  {
    if at.None? then [] else Path(nodes, at.value)
  }

  lemma OneLevelDown(nodes: seq<Node>, id: nat)
    requires Rooted(nodes) && id < |nodes|
    ensures Trail(nodes, id) == TrailOf(nodes, nodes[id].parent) + [id]
    ensures Path(nodes, id) == PathOf(nodes, nodes[id].parent) + [nodes[id].identifier]
    ensures id !in TrailOf(nodes, nodes[id].parent)
  {
  }

  lemma {:induction false} TrailWithin(nodes: seq<Node>, id: nat, k: nat)
    requires Rooted(nodes) && id < |nodes| && k < |Trail(nodes, id)|
    ensures var a := Trail(nodes, id)[k];
            Trail(nodes, a) == Trail(nodes, id)[..k + 1] && Path(nodes, a) == Path(nodes, id)[..k + 1]
    decreases id
  {
    if k < |Trail(nodes, id)| - 1 {
      TrailWithin(nodes, nodes[id].parent.value, k);
    }
  }

  /** A trail holds one node a level. */
  lemma TrailLevel(nodes: seq<Node>, id: nat, a: nat)
    requires Rooted(nodes) && id < |nodes| && a in Trail(nodes, id)
    ensures |Trail(nodes, a)| <= |Trail(nodes, id)|
    ensures a == Trail(nodes, id)[|Trail(nodes, a)| - 1]
  {
    var k :| 0 <= k < |Trail(nodes, id)| && Trail(nodes, id)[k] == a;
    TrailWithin(nodes, id, k);
  }

  predicate DistinctSiblings(nodes: seq<Node>) {
    forall i, j :: 0 <= i < j < |nodes| && nodes[i].parent == nodes[j].parent ==>
      nodes[i].identifier != nodes[j].identifier
  }

  /** With distinct siblings, a path names one node. */
  lemma {:induction false} PathsAreUnique(nodes: seq<Node>, a: nat, b: nat)
    requires Rooted(nodes) && DistinctSiblings(nodes) && a < |nodes| && b < |nodes|
    requires Path(nodes, a) == Path(nodes, b)
    ensures a == b
    decreases a
  {
    var p, q := nodes[a].parent, nodes[b].parent;
    var s, t := Path(nodes, a), Path(nodes, b);
    assert s[|s| - 1] == nodes[a].identifier && t[|t| - 1] == nodes[b].identifier;
    if p.Some? && q.Some? {
      assert s[..|s| - 1] == Path(nodes, p.value) && t[..|t| - 1] == Path(nodes, q.value);
      PathsAreUnique(nodes, p.value, q.value);
    }
  }

  /** Trails and paths depend on parents and identifiers only. */
  lemma {:induction false} TrailStays(nodes: seq<Node>, after: seq<Node>, id: nat)
    requires Rooted(nodes) && Rooted(after) && id < |nodes| <= |after|
    requires forall i :: 0 <= i < |nodes| ==>
               after[i].parent == nodes[i].parent && after[i].identifier == nodes[i].identifier
    ensures Trail(after, id) == Trail(nodes, id) && Path(after, id) == Path(nodes, id)
    decreases id
  {
    if nodes[id].parent.Some? { TrailStays(nodes, after, nodes[id].parent.value); }
  }

  /** `node_matches_path`: compares from the far end while walking up. */
  method NodeMatchesPath(nodes: seq<Node>, id: nat, path: seq<string>) returns (matches: bool)
    requires Rooted(nodes) && id < |nodes|
    ensures matches <==> Path(nodes, id) == path
  {
    var current, left := id, |path|;
    while true
      invariant 0 <= current < |nodes| && 0 <= left <= |path|
      invariant Path(nodes, id) == path <==> Path(nodes, current) == path[..left]
      decreases current
    {
      ghost var here := Path(nodes, current);
      assert here[|here| - 1] == nodes[current].identifier;
      if left == 0 || path[left - 1] != nodes[current].identifier { return false; }
      left := left - 1;
      assert path[..left + 1] == path[..left] + [path[left]];
      if nodes[current].parent.None? {
        assert here == [] + [path[left]];
        return left == 0;
      }
      current := nodes[current].parent.value;
      assert here == Path(nodes, current) + [path[left]];
    }
  }

  // ---------------------------------------------------------------------------------------
  // Down: children

  /** `x` stands before `y` in one list of siblings. */
  predicate Precedes(siblings: seq<nat>, x: nat, y: nat) {
    exists i, j :: 0 <= i < j < |siblings| && siblings[i] == x && siblings[j] == y
  }

  predicate NoRepeats(ids: seq<nat>) { forall i, j :: 0 <= i < j < |ids| ==> ids[i] != ids[j] }

  /** Lists hold exactly the nodes that name the owner as their parent, once each. */
  ghost predicate Lists(nodes: seq<Node>, ids: seq<nat>, owner: Option<nat>) {
    && NoRepeats(ids)
    && forall c: nat :: c in ids <==> c < |nodes| && nodes[c].parent == owner
  }

  /** Parents and children agree. */
  ghost predicate Linked(nodes: seq<Node>) {
    Rooted(nodes) && forall p :: 0 <= p < |nodes| ==> Lists(nodes, nodes[p].children, Some(p))
  }

  ghost predicate Shaped(roots: seq<nat>, nodes: seq<Node>) {
    Linked(nodes) && DistinctSiblings(nodes) && Lists(nodes, roots, None)
  }

  /** The first sibling of a given name. */
  method FindSibling(nodes: seq<Node>, siblings: seq<nat>, identifier: string) returns (r: Option<nat>)
    requires forall k :: 0 <= k < |siblings| ==> siblings[k] < |nodes|
    ensures r.Some? ==> r.value in siblings && nodes[r.value].identifier == identifier
    ensures r.None? ==> forall c :: c in siblings ==> nodes[c].identifier != identifier
  {
    var i := 0;
    while i < |siblings|
      invariant 0 <= i <= |siblings|
      invariant forall k :: 0 <= k < i ==> nodes[siblings[k]].identifier != identifier
    {
      if nodes[siblings[i]].identifier == identifier { return Some(siblings[i]); }
      i := i + 1;
    }
    return None;
  }

  /** `owner` is where a walk along `p` stands. */
  predicate StandsAt(nodes: seq<Node>, owner: Option<nat>, p: seq<string>)
    requires Rooted(nodes)
  {
    if owner.None? then p == [] else owner.value < |nodes| && Path(nodes, owner.value) == p
  }

  /** `find`: walks down one name at a time, and finds the node of that path if there is one. */
  method Find(roots: seq<nat>, nodes: seq<Node>, path: seq<string>) returns (found: Option<nat>)
    requires Shaped(roots, nodes)
    ensures found.Some? ==> found.value < |nodes| && Path(nodes, found.value) == path
    ensures found.None? ==> forall id: nat :: id < |nodes| ==> Path(nodes, id) != path
  {
    hide Path, Trail, DistinctSiblings, NoRepeats;
    var siblings := roots;
    found := None;
    var i := 0;
    while i < |path|
      invariant 0 <= i <= |path| && StandsAt(nodes, found, path[..i]) && Lists(nodes, siblings, found)
    {
      Listed(nodes, siblings, found);
      var next := FindSibling(nodes, siblings, path[i]);
      if next.None? {
        forall id: nat | id < |nodes| ensures Path(nodes, id) != path {
          NotBelow(nodes, siblings, found, path, i, id);
        }
        return None;
      }
      Downwards(nodes, found, path[..i], next.value);
      assert path[..i + 1] == path[..i] + [path[i]];
      found := next;
      siblings := nodes[next.value].children;
      i := i + 1;
    }
    assert path[..i] == path;
  }

  lemma Listed(nodes: seq<Node>, siblings: seq<nat>, owner: Option<nat>)
    requires Lists(nodes, siblings, owner)
    ensures forall k :: 0 <= k < |siblings| ==> siblings[k] < |nodes| && nodes[siblings[k]].parent == owner
  {
    assert forall k :: 0 <= k < |siblings| ==> siblings[k] in siblings;
  }

  lemma Downwards(nodes: seq<Node>, owner: Option<nat>, p: seq<string>, c: nat)
    requires Rooted(nodes) && c < |nodes| && nodes[c].parent == owner && StandsAt(nodes, owner, p)
    ensures StandsAt(nodes, Some(c), p + [nodes[c].identifier])
  {
  }

  /** If the walk gets stuck, no node has the path. */
  lemma NotBelow(nodes: seq<Node>, siblings: seq<nat>, owner: Option<nat>, path: seq<string>, i: nat, id: nat)
    requires Rooted(nodes) && DistinctSiblings(nodes) && i < |path| && Lists(nodes, siblings, owner)
    requires StandsAt(nodes, owner, path[..i]) && id < |nodes|
    requires forall c :: c in siblings ==> nodes[c].identifier != path[i]
    ensures Path(nodes, id) != path
  {
    if Path(nodes, id) == path {
      TrailWithin(nodes, id, i);
      var c := Trail(nodes, id)[i];
      assert Path(nodes, c)[i] == nodes[c].identifier;
      if i > 0 {
        var p := nodes[c].parent.value;
        assert Path(nodes, p) == Path(nodes, c)[..i] == path[..i];
        PathsAreUnique(nodes, p, owner.value);
      }
      assert false;
    }
  }
}
