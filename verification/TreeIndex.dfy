/** The search index of the request tree: a preorder numbering, and buckets of nodes by the hash
    of their path. Nothing is assumed of the hash; two paths may well share one. */
module TreeIndex {
  import opened Basics
  import opened TreePaths

  // ---------------------------------------------------------------------------------------
  // Preorder

  predicate From(nodes: seq<Node>, ids: seq<nat>, lo: nat) {
    forall k :: 0 <= k < |ids| ==> lo <= ids[k] < |nodes|
  }

  predicate Descending(nodes: seq<Node>) {
    forall p :: 0 <= p < |nodes| ==> From(nodes, nodes[p].children, p + 1)
  }

  lemma LinkedDescends(nodes: seq<Node>)
    requires Linked(nodes)
    ensures Descending(nodes)
  {
    forall p | 0 <= p < |nodes| ensures From(nodes, nodes[p].children, p + 1) {
      Listed(nodes, nodes[p].children, Some(p));
    }
  }

  /** The nodes below and including `ids`, each before its children. */
  function Preorder(nodes: seq<Node>, ids: seq<nat>, lo: nat): (r: seq<nat>)
    requires Descending(nodes) && From(nodes, ids, lo)
    ensures From(nodes, r, lo)
    decreases |nodes| - lo, |ids|
  {
    if ids == [] then []
    else
      var last := ids[|ids| - 1];
      Preorder(nodes, ids[..|ids| - 1], lo) + [last] + Preorder(nodes, nodes[last].children, last + 1)
  }

  /** Whatever is visited has one of `ids` on its trail. */
  lemma {:induction false} PreorderIsBelow(nodes: seq<Node>, ids: seq<nat>, lo: nat, x: nat) returns (a: nat)
    requires Rooted(nodes) && Linked(nodes) && Descending(nodes) && From(nodes, ids, lo)
    requires x in Preorder(nodes, ids, lo)
    ensures x < |nodes| && a in ids && a in Trail(nodes, x)
    decreases |nodes| - lo, |ids|
  {
    hide Linked;
    var front, last := ids[..|ids| - 1], ids[|ids| - 1];
    if x in Preorder(nodes, front, lo) {
      a := PreorderIsBelow(nodes, front, lo, x);
    } else {
      a := last;
      if x != last {
        var c := PreorderIsBelow(nodes, nodes[last].children, last + 1, x);
        ChildOf(nodes, last, c);
        ParentOnTrail(nodes, x, c);
      }
    }
  }

  lemma ChildrenOf(nodes: seq<Node>, p: nat)
    requires Linked(nodes) && p < |nodes|
    ensures var ids := nodes[p].children;
            NoRepeats(ids) && forall k :: 0 <= k < |ids| ==> ids[k] < |nodes| && nodes[ids[k]].parent == Some(p)
  {
    Listed(nodes, nodes[p].children, Some(p));
  }

  lemma ChildOf(nodes: seq<Node>, p: nat, c: nat)
    requires Linked(nodes) && p < |nodes| && c in nodes[p].children
    ensures c < |nodes| && nodes[c].parent == Some(p)
  {
  }

  lemma ParentOnTrail(nodes: seq<Node>, x: nat, c: nat)
    requires Rooted(nodes) && x < |nodes| && c in Trail(nodes, x) && nodes[c].parent.Some?
    ensures nodes[c].parent.value in Trail(nodes, x)
  {
    TrailLevel(nodes, x, c);
    var k := |Trail(nodes, c)| - 1;
    TrailWithin(nodes, x, k);
    var p := nodes[c].parent.value;
    assert Trail(nodes, c) == Trail(nodes, p) + [c];
    assert Trail(nodes, x)[..k + 1][k - 1] == p;
  }

  lemma {:induction false} BelowIsPreorder(nodes: seq<Node>, ids: seq<nat>, lo: nat, a: nat, x: nat)
    requires Rooted(nodes) && Linked(nodes) && Descending(nodes) && From(nodes, ids, lo)
    requires a in ids && x < |nodes| && a in Trail(nodes, x)
    ensures x in Preorder(nodes, ids, lo)
    decreases |nodes| - lo, |ids|
  {
    var front, last := ids[..|ids| - 1], ids[|ids| - 1];
    if a in front {
      BelowIsPreorder(nodes, front, lo, a, x);
    } else if x != last {
      TrailLevel(nodes, x, last);
      var k := |Trail(nodes, last)| - 1;
      TrailWithin(nodes, x, k);
      TrailWithin(nodes, x, k + 1);
      var c := Trail(nodes, x)[k + 1];
      NextOnTrail(nodes, x, k);
      BelowIsPreorder(nodes, nodes[last].children, last + 1, c, x);
    }
  }

  lemma {:induction false} NextOnTrail(nodes: seq<Node>, x: nat, k: nat)
    requires Rooted(nodes) && x < |nodes| && k + 1 < |Trail(nodes, x)|
    ensures nodes[Trail(nodes, x)[k + 1]].parent == Some(Trail(nodes, x)[k])
    decreases x
  {
    if k + 1 < |Trail(nodes, x)| - 1 {
      NextOnTrail(nodes, nodes[x].parent.value, k);
    }
  }

  /** Siblings have no descendant in common, so nothing is visited twice. */
  lemma {:induction false} PreorderOnce(nodes: seq<Node>, ids: seq<nat>, lo: nat, owner: Option<nat>)
    requires Rooted(nodes) && Linked(nodes) && Descending(nodes) && From(nodes, ids, lo)
    requires NoRepeats(ids) && forall k :: 0 <= k < |ids| ==> nodes[ids[k]].parent == owner
    ensures NoRepeats(Preorder(nodes, ids, lo))
    decreases |nodes| - lo, |ids|
  {
    hide Linked;
    if ids != [] {
      var front, last := ids[..|ids| - 1], ids[|ids| - 1];
      PreorderOnce(nodes, front, lo, owner);
      ChildrenOf(nodes, last);
      PreorderOnce(nodes, nodes[last].children, last + 1, Some(last));
      var a, b := Preorder(nodes, front, lo), Preorder(nodes, nodes[last].children, last + 1);
      forall x | x in a ensures x != last && x !in b {
        FamiliesApart(nodes, ids, lo, owner, x);
      }
      NoRepeatsJoin(a, last, b);
    }
  }

  lemma FamiliesApart(nodes: seq<Node>, ids: seq<nat>, lo: nat, owner: Option<nat>, x: nat)
    requires Rooted(nodes) && Linked(nodes) && Descending(nodes) && From(nodes, ids, lo) && ids != []
    requires NoRepeats(ids) && forall k :: 0 <= k < |ids| ==> nodes[ids[k]].parent == owner
    requires x in Preorder(nodes, ids[..|ids| - 1], lo)
    ensures var last := ids[|ids| - 1]; x != last && x !in Preorder(nodes, nodes[last].children, last + 1)
  {
    hide Preorder, Linked;
    var front, last := ids[..|ids| - 1], ids[|ids| - 1];
    var p := PreorderIsBelow(nodes, front, lo, x);
    if x == last {
      Apart(nodes, x, p, last);
    } else if x in Preorder(nodes, nodes[last].children, last + 1) {
      var c := PreorderIsBelow(nodes, nodes[last].children, last + 1, x);
      ChildOf(nodes, last, c);
      ParentOnTrail(nodes, x, c);
      Apart(nodes, x, p, last);
    }
  }

  lemma Apart(nodes: seq<Node>, x: nat, a: nat, b: nat)
    requires Rooted(nodes) && x < |nodes| && a in Trail(nodes, x) && b in Trail(nodes, x)
    requires nodes[a].parent == nodes[b].parent
    ensures a == b
  {
    TrailLevel(nodes, x, a);
    TrailLevel(nodes, x, b);
  }

  lemma NoRepeatsJoin(a: seq<nat>, m: nat, b: seq<nat>)
    requires NoRepeats(a) && NoRepeats(b) && m !in b && forall x :: x in a ==> x != m && x !in b
    ensures NoRepeats(a + [m] + b)
  {
    var s := a + [m] + b;
    forall i, j | 0 <= i < j < |s| ensures s[i] != s[j] {
      assert i < |a| ==> a[i] in a;
      assert j > |a| ==> b[j - |a| - 1] in b;
    }
  }

  /** A list that has each of 0 to n - 1 once has length n. */
  lemma {:induction false} CountsAll(s: seq<nat>, n: nat)
    requires NoRepeats(s) && forall x: nat :: x in s <==> x < n
    ensures |s| == n
    decreases n
  {
    assert s != [] ==> s[0] in s;
    if n > 0 {
      var top: nat := n - 1;
      assert top in s;
      var k :| 0 <= k < |s| && s[k] == top;
      var t := s[..k] + s[k + 1..];
      forall x: nat ensures x in t <==> x < top {
        if x < top {
          assert x in s;
          var j :| 0 <= j < |s| && s[j] == x;
          assert t[if j < k then j else j - 1] == x;
        }
        if x in t {
          var j :| 0 <= j < |t| && t[j] == x;
          var i := if j < k then j else j + 1;
          assert x == s[i] && s[i] in s;
        }
      }
      CountsAll(t, n - 1);
    }
  }

  /** The preorder of a whole tree visits every node once. */
  lemma PreorderIsPermutation(roots: seq<nat>, nodes: seq<Node>)
    requires Shaped(roots, nodes)
    ensures Descending(nodes) && From(nodes, roots, 0)
    ensures var order := Preorder(nodes, roots, 0);
            NoRepeats(order) && |order| == |nodes| && forall x: nat :: x in order <==> x < |nodes|
  {
    LinkedDescends(nodes);
    Listed(nodes, roots, None);
    var order := Preorder(nodes, roots, 0);
    PreorderOnce(nodes, roots, 0, None);
    forall x: nat ensures x in order <==> x < |nodes| {
      assert x in order ==> x < |nodes|;
      if x < |nodes| {
        RootOnTrail(nodes, x);
        BelowIsPreorder(nodes, roots, 0, Trail(nodes, x)[0], x);
      }
    }
    CountsAll(order, |nodes|);
  }

  lemma {:induction false} RootOnTrail(nodes: seq<Node>, x: nat)
    requires Rooted(nodes) && x < |nodes|
    ensures nodes[Trail(nodes, x)[0]].parent == None
    decreases x
  {
    if nodes[x].parent.Some? { RootOnTrail(nodes, nodes[x].parent.value); }
  }

  // ---------------------------------------------------------------------------------------
  // Numbering and hashing

  /** Any hash of a path that goes one identifier at a time. */
  datatype Hasher = Hasher(offset: nat, extend: (nat, string) -> nat)

  function HashPath(h: Hasher, path: seq<string>): nat {
    if path == [] then h.offset else h.extend(HashPath(h, path[..|path| - 1]), path[|path| - 1])
  }

  function HashOf(h: Hasher, nodes: seq<Node>, id: nat): nat
    requires Rooted(nodes) && id < |nodes|
  {
    HashPath(h, Path(nodes, id))
  }

  datatype PathHashEntry = One(id: nat) | Collision(ids: seq<nat>) {
    function Push(next: nat): PathHashEntry {
      if One? then Collision([id, next]) else Collision(ids + [next])
    }

    function Ids(): seq<nat> { if One? then [id] else ids }
  }

  type Table = map<nat, PathHashEntry>

  function Bucket(t: Table, hash: nat): seq<nat> { if hash in t then t[hash].Ids() else [] }

  function Note(t: Table, hash: nat, id: nat): Table {
    if hash in t then t[hash := t[hash].Push(id)] else t[hash := One(id)]
  }

  /** Positions after numbering `order` from `first` on. */
  function Placed(positions: seq<nat>, order: seq<nat>, first: nat): (r: seq<nat>)
    requires forall k :: 0 <= k < |order| ==> order[k] < |positions|
    ensures |r| == |positions|
  {
    if order == [] then positions
    else Placed(positions, order[..|order| - 1], first)[order[|order| - 1] := first + |order| - 1]
  }

  /** The table after noting `order` one by one. */
  function Noted(h: Hasher, nodes: seq<Node>, t: Table, order: seq<nat>): Table
    requires Rooted(nodes) && From(nodes, order, 0)
  {
    if order == [] then t
    else
      var last := order[|order| - 1];
      Note(Noted(h, nodes, t, order[..|order| - 1]), HashOf(h, nodes, last), last)
  }

  lemma {:induction false} PlacedJoin(positions: seq<nat>, a: seq<nat>, b: seq<nat>, first: nat)
    requires forall k :: 0 <= k < |a| ==> a[k] < |positions|
    requires forall k :: 0 <= k < |b| ==> b[k] < |positions|
    ensures Placed(positions, a + b, first) == Placed(Placed(positions, a, first), b, first + |a|)
  {
    if b == [] {
      assert a + b == a;
    } else {
      assert (a + b)[..|a + b| - 1] == a + b[..|b| - 1];
      PlacedJoin(positions, a, b[..|b| - 1], first);
    }
  }

  lemma {:induction false} NotedJoin(h: Hasher, nodes: seq<Node>, t: Table, a: seq<nat>, b: seq<nat>)
    requires Rooted(nodes) && From(nodes, a, 0) && From(nodes, b, 0)
    ensures Noted(h, nodes, t, a + b) == Noted(h, nodes, Noted(h, nodes, t, a), b)
  {
    if b == [] {
      assert a + b == a;
    } else {
      assert (a + b)[..|a + b| - 1] == a + b[..|b| - 1];
      NotedJoin(h, nodes, t, a, b[..|b| - 1]);
    }
  }

  lemma {:induction false} PlacedAt(positions: seq<nat>, order: seq<nat>, first: nat, k: nat)
    requires forall j :: 0 <= j < |order| ==> order[j] < |positions|
    requires NoRepeats(order) && k < |order|
    ensures Placed(positions, order, first)[order[k]] == first + k
  {
    if k < |order| - 1 { PlacedAt(positions, order[..|order| - 1], first, k); }
  }

  /** A bucket holds exactly the noted nodes of its hash. */
  lemma {:induction false} BucketHolds(h: Hasher, nodes: seq<Node>, order: seq<nat>, hash: nat, id: nat)
    requires Rooted(nodes) && From(nodes, order, 0)
    ensures id in Bucket(Noted(h, nodes, map[], order), hash) <==>
              id in order && id < |nodes| && HashOf(h, nodes, id) == hash
  {
    if order != [] {
      hide Note, Bucket, HashOf;
      var front, last := order[..|order| - 1], order[|order| - 1];
      BucketHolds(h, nodes, front, hash, id);
      BucketNote(Noted(h, nodes, map[], front), HashOf(h, nodes, last), last, hash);
      assert order == front + [last];
    }
  }

  lemma BucketNote(t: Table, hash: nat, id: nat, other: nat)
    ensures Bucket(Note(t, hash, id), other) == Bucket(t, other) + if other == hash then [id] else []
  {
  }

  /** `index_nodes`: one walk numbers the nodes and fills the buckets. */
  method IndexNodes(h: Hasher, nodes: seq<Node>, ids: seq<nat>, ghost lo: nat, parentHash: nat,
                    nextPosition: nat, positions: seq<nat>, table: Table)
      returns (next: nat, placed: seq<nat>, noted: Table)
    requires Linked(nodes) && Rooted(nodes) && Descending(nodes) && From(nodes, ids, lo)
    requires |positions| == |nodes|
    requires forall k :: 0 <= k < |ids| ==> HashOf(h, nodes, ids[k]) == h.extend(parentHash, nodes[ids[k]].identifier)
    ensures var order := Preorder(nodes, ids, lo);
            && next == nextPosition + |order|
            && placed == Placed(positions, order, nextPosition)
            && noted == Noted(h, nodes, table, order)
    decreases |nodes| - lo
  {
    hide Linked, Path, Preorder, Placed, Noted, HashOf, Note;
    IndexNone(h, nodes, positions, table, lo, nextPosition);
    next, placed, noted := nextPosition, positions, table;
    var i := 0;
    while i < |ids|
      invariant 0 <= i <= |ids|
      invariant next == nextPosition + |Preorder(nodes, ids[..i], lo)|
      invariant placed == Placed(positions, Preorder(nodes, ids[..i], lo), nextPosition)
      invariant noted == Noted(h, nodes, table, Preorder(nodes, ids[..i], lo))
    {
      var id := ids[i];
      var hash := h.extend(parentHash, nodes[id].identifier);
      ChildHashes(h, nodes, id);
      IndexStep(h, nodes, positions, table, ids, lo, i, nextPosition);
      placed := placed[id := next];
      next := next + 1;
      noted := Note(noted, hash, id);
      next, placed, noted := IndexNodes(h, nodes, nodes[id].children, id + 1, hash, next, placed, noted);
      i := i + 1;
    }
    assert ids[..i] == ids;
  }

  lemma IndexNone(h: Hasher, nodes: seq<Node>, positions: seq<nat>, t: Table, lo: nat, first: nat)
    requires Rooted(nodes) && Descending(nodes)
    ensures Preorder(nodes, [], lo) == [] && Placed(positions, [], first) == positions && Noted(h, nodes, t, []) == t
  {
  }

  lemma PreorderStep(nodes: seq<Node>, ids: seq<nat>, lo: nat, i: nat)
    requires Descending(nodes) && From(nodes, ids, lo) && i < |ids|
    ensures Preorder(nodes, ids[..i + 1], lo)
         == Preorder(nodes, ids[..i], lo) + [ids[i]] + Preorder(nodes, nodes[ids[i]].children, ids[i] + 1)
  {
    assert ids[..i + 1][..i] == ids[..i];
  }

  /** One sibling more: itself, then everything below it. */
  lemma IndexStep(
      h: Hasher, nodes: seq<Node>, positions: seq<nat>, t: Table, ids: seq<nat>, lo: nat, i: nat, first: nat)
    requires Rooted(nodes) && Descending(nodes) && From(nodes, ids, lo) && i < |ids| && |nodes| == |positions|
    ensures var id, before := ids[i], Preorder(nodes, ids[..i], lo);
            var below := Preorder(nodes, nodes[id].children, id + 1);
            var order, next := Preorder(nodes, ids[..i + 1], lo), first + |before|;
            && |order| == |before| + 1 + |below|
            && Placed(positions, order, first) == Placed(Placed(positions, before, first)[id := next], below, next + 1)
            && Noted(h, nodes, t, order)
            == Noted(h, nodes, Note(Noted(h, nodes, t, before), HashOf(h, nodes, id), id), below)
  {
    hide Preorder, Placed, Noted;
    var id, before := ids[i], Preorder(nodes, ids[..i], lo);
    var below := Preorder(nodes, nodes[id].children, id + 1);
    PreorderStep(nodes, ids, lo, i);
    IndexOne(h, nodes, positions, t, before, id, first);
    PlacedJoin(positions, before + [id], below, first);
    NotedJoin(h, nodes, t, before + [id], below);
  }

  lemma RootHashes(h: Hasher, roots: seq<nat>, nodes: seq<Node>)
    requires Shaped(roots, nodes)
    ensures Rooted(nodes) && Linked(nodes) && Descending(nodes) && From(nodes, roots, 0)
    ensures forall k :: 0 <= k < |roots| ==>
              HashOf(h, nodes, roots[k]) == h.extend(h.offset, nodes[roots[k]].identifier)
  {
    LinkedDescends(nodes);
    Listed(nodes, roots, None);
    forall k | 0 <= k < |roots|
      ensures HashOf(h, nodes, roots[k]) == h.extend(h.offset, nodes[roots[k]].identifier)
    {
      var path := Path(nodes, roots[k]);
      assert path == [nodes[roots[k]].identifier] && path[..0] == [];
      assert HashPath(h, path[..0]) == h.offset;
    }
  }

  lemma ChildHashes(h: Hasher, nodes: seq<Node>, id: nat)
    requires Linked(nodes) && Rooted(nodes) && Descending(nodes) && id < |nodes|
    ensures forall k :: 0 <= k < |nodes[id].children| ==>
              var c := nodes[id].children[k];
              HashOf(h, nodes, c) == h.extend(HashOf(h, nodes, id), nodes[c].identifier)
  {
    ChildrenOf(nodes, id);
    forall k | 0 <= k < |nodes[id].children|
      ensures var c := nodes[id].children[k];
              HashOf(h, nodes, c) == h.extend(HashOf(h, nodes, id), nodes[c].identifier)
    {
      var c := nodes[id].children[k];
      assert Path(nodes, c) == Path(nodes, id) + [nodes[c].identifier];
      assert Path(nodes, c)[..|Path(nodes, c)| - 1] == Path(nodes, id);
    }
  }

  lemma IndexOne(h: Hasher, nodes: seq<Node>, positions: seq<nat>, t: Table, before: seq<nat>, id: nat, first: nat)
    requires Rooted(nodes) && From(nodes, before, 0) && id < |nodes| == |positions|
    ensures Placed(positions, before + [id], first) == Placed(positions, before, first)[id := first + |before|]
    ensures Noted(h, nodes, t, before + [id]) == Note(Noted(h, nodes, t, before), HashOf(h, nodes, id), id)
  {
    assert (before + [id])[..|before|] == before;
  }

  // ---------------------------------------------------------------------------------------
  // Subtrees

  /** What is visited from one node on: it, and everything with it on the trail. */
  function Subtree(nodes: seq<Node>, id: nat): seq<nat>
    requires Descending(nodes) && id < |nodes|
  {
    Preorder(nodes, [id], id)
  }

  lemma PreorderOfNone(nodes: seq<Node>, lo: nat)
    requires Descending(nodes)
    ensures Preorder(nodes, [], lo) == []
  {
  }

  lemma SubtreeIs(nodes: seq<Node>, id: nat)
    requires Descending(nodes) && id < |nodes|
    ensures Subtree(nodes, id) == [id] + Preorder(nodes, nodes[id].children, id + 1)
  {
    hide Preorder;
    assert [id][..0] == [] && [id][..1] == [id];
    PreorderOfNone(nodes, id);
    PreorderStep(nodes, [id], id, 0);
  }

  /** Below a node are exactly the nodes whose path extends its path, each once. */
  lemma SubtreeByPath(nodes: seq<Node>, id: nat)
    requires Rooted(nodes) && Linked(nodes) && Descending(nodes) && DistinctSiblings(nodes) && id < |nodes|
    ensures NoRepeats(Subtree(nodes, id))
    ensures forall c: nat :: c in Subtree(nodes, id) <==> c < |nodes| && id in Trail(nodes, c)
    ensures forall c: nat :: c in Subtree(nodes, id) <==> c < |nodes| && Path(nodes, id) <= Path(nodes, c)
  {
    hide Linked, Preorder;
    PreorderOnce(nodes, [id], id, nodes[id].parent);
    forall c: nat
      ensures c in Subtree(nodes, id) <==> c < |nodes| && id in Trail(nodes, c)
      ensures c in Subtree(nodes, id) <==> c < |nodes| && Path(nodes, id) <= Path(nodes, c)
    {
      if c in Subtree(nodes, id) {
        var a := PreorderIsBelow(nodes, [id], id, c);
      }
      if c < |nodes| {
        if id in Trail(nodes, c) { BelowIsPreorder(nodes, [id], id, id, c); }
        OnTrailByPath(nodes, id, c);
      }
    }
  }

  lemma OnTrailByPath(nodes: seq<Node>, a: nat, c: nat)
    requires Rooted(nodes) && DistinctSiblings(nodes) && a < |nodes| && c < |nodes|
    ensures a in Trail(nodes, c) <==> Path(nodes, a) <= Path(nodes, c)
  {
    if a in Trail(nodes, c) {
      TrailLevel(nodes, c, a);
      TrailWithin(nodes, c, |Trail(nodes, a)| - 1);
    }
    if Path(nodes, a) <= Path(nodes, c) {
      var k := |Path(nodes, a)| - 1;
      TrailWithin(nodes, c, k);
      PathsAreUnique(nodes, a, Trail(nodes, c)[k]);
    }
  }

  /** The requests among the visited nodes. */
  function Requests(nodes: seq<Node>, order: seq<nat>): seq<nat>
    requires From(nodes, order, 0)
  {
    if order == [] then []
    else
      var last := nodes[order[|order| - 1]];
      Requests(nodes, order[..|order| - 1]) + if last.kind.Capture? then [last.kind.sequence] else []
  }

  lemma {:induction false} RequestsJoin(nodes: seq<Node>, a: seq<nat>, b: seq<nat>)
    requires From(nodes, a, 0) && From(nodes, b, 0)
    ensures Requests(nodes, a + b) == Requests(nodes, a) + Requests(nodes, b)
  {
    if b == [] {
      assert a + b == a;
    } else {
      assert (a + b)[..|a + b| - 1] == a + b[..|b| - 1];
      RequestsJoin(nodes, a, b[..|b| - 1]);
    }
  }

  lemma RequestsOfOne(nodes: seq<Node>, id: nat)
    requires id < |nodes|
    ensures Requests(nodes, [id]) == if nodes[id].kind.Capture? then [nodes[id].kind.sequence] else []
  {
    assert [id][..0] == [];
  }

  /** `Requests` over a node and some of its children, one child more. */
  lemma RequestsStep(nodes: seq<Node>, id: nat, i: nat)
    requires Descending(nodes) && id < |nodes| && i < |nodes[id].children|
    ensures var ids := nodes[id].children;
            Requests(nodes, [id] + Preorder(nodes, ids[..i + 1], id + 1)) ==
            Requests(nodes, [id] + Preorder(nodes, ids[..i], id + 1)) + Requests(nodes, Subtree(nodes, ids[i]))
  {
    hide Preorder;
    var ids := nodes[id].children;
    PreorderStep(nodes, ids, id + 1, i);
    SubtreeIs(nodes, ids[i]);
    var before, below := Preorder(nodes, ids[..i], id + 1), Preorder(nodes, nodes[ids[i]].children, ids[i] + 1);
    assert [id] + (before + [ids[i]] + below) == ([id] + before) + ([ids[i]] + below);
    RequestsJoin(nodes, [id] + before, [ids[i]] + below);
  }

  lemma {:induction false} RequestsHold(nodes: seq<Node>, order: seq<nat>, q: nat)
    requires From(nodes, order, 0)
    ensures q in Requests(nodes, order) <==> exists c :: c in order && nodes[c].kind == Capture(q)
  {
    if order != [] {
      var front, last := order[..|order| - 1], order[|order| - 1];
      RequestsHold(nodes, front, q);
      assert order == front + [last];
    }
  }

  function Captures(nodes: seq<Node>, order: seq<nat>): set<nat>
    requires From(nodes, order, 0)
  {
    set c | c in order && nodes[c].kind.Capture?
  }

  lemma CapturesSnoc(nodes: seq<Node>, front: seq<nat>, last: nat)
    requires From(nodes, front, 0) && last < |nodes| && NoRepeats(front + [last])
    ensures last !in Captures(nodes, front)
    ensures Captures(nodes, front + [last])
         == Captures(nodes, front) + if nodes[last].kind.Capture? then {last} else {}
  {
    var all := front + [last];
    assert all[|front|] == last && forall k :: 0 <= k < |front| ==> all[k] == front[k];
    assert forall c :: c in all <==> c in front || c == last;
  }

  /** Visiting every capture once yields as many requests as there are captures. */
  lemma {:induction false} RequestsCount(nodes: seq<Node>, order: seq<nat>)
    requires From(nodes, order, 0) && NoRepeats(order)
    ensures |Requests(nodes, order)| == |Captures(nodes, order)|
  {
    hide Captures;
    if order == [] {
      NoCaptures(nodes);
    } else {
      var front, last := order[..|order| - 1], order[|order| - 1];
      RequestsCount(nodes, front);
      assert order == front + [last];
      CapturesSnoc(nodes, front, last);
    }
  }

  lemma NoCaptures(nodes: seq<Node>)
    ensures Captures(nodes, []) == {}
  {
  }

  predicate OneNodeARequest(nodes: seq<Node>) {
    forall c, d :: 0 <= c < |nodes| && 0 <= d < |nodes| && nodes[c].kind.Capture? && nodes[c].kind == nodes[d].kind ==>
      c == d
  }

  lemma {:induction false} RequestsOnce(nodes: seq<Node>, order: seq<nat>)
    requires From(nodes, order, 0) && NoRepeats(order) && OneNodeARequest(nodes)
    ensures NoRepeats(Requests(nodes, order))
  {
    if order != [] {
      var front, last := order[..|order| - 1], order[|order| - 1];
      RequestsOnce(nodes, front);
      if nodes[last].kind.Capture? {
        var q := nodes[last].kind.sequence;
        RequestsHold(nodes, front, q);
        var some := Requests(nodes, front);
        assert forall k :: 0 <= k < |some| ==> some[k] in some;
      }
    }
  }
}
