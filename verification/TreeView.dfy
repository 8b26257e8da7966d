/** The rows of the request tree that can be seen: those whose every ancestor is unfolded. */
module TreeView {
  import opened Basics
  import opened TreePaths
  import opened TreeIndex

  type Unfolded = set<seq<string>>

  /** Every branch above `id` is unfolded. */
  predicate Shown(nodes: seq<Node>, unfolded: Unfolded, id: nat)
    requires Rooted(nodes) && id < |nodes|
  {
    var path := Path(nodes, id);
    forall k :: 0 < k < |path| ==> path[..k] in unfolded
  }

  /** The rows of `order` that are shown. */
  function Showing(nodes: seq<Node>, unfolded: Unfolded, order: seq<nat>): seq<seq<string>>
    requires Rooted(nodes) && From(nodes, order, 0)
  {
    if order == [] then []
    else
      var last := order[|order| - 1];
      Showing(nodes, unfolded, order[..|order| - 1]) + if Shown(nodes, unfolded, last) then [Path(nodes, last)] else []
  }

  lemma {:induction false} ShowingJoin(nodes: seq<Node>, unfolded: Unfolded, a: seq<nat>, b: seq<nat>)
    requires Rooted(nodes) && From(nodes, a, 0) && From(nodes, b, 0)
    ensures Showing(nodes, unfolded, a + b) == Showing(nodes, unfolded, a) + Showing(nodes, unfolded, b)
  {
    if b == [] {
      assert a + b == a;
    } else {
      assert (a + b)[..|a + b| - 1] == a + b[..|b| - 1];
      ShowingJoin(nodes, unfolded, a, b[..|b| - 1]);
    }
  }

  lemma {:induction false} ShowingNone(nodes: seq<Node>, unfolded: Unfolded, order: seq<nat>)
    requires Rooted(nodes) && From(nodes, order, 0)
    requires forall k :: 0 <= k < |order| ==> !Shown(nodes, unfolded, order[k])
    ensures Showing(nodes, unfolded, order) == []
  {
    if order != [] { ShowingNone(nodes, unfolded, order[..|order| - 1]); }
  }

  lemma ShowingOne(nodes: seq<Node>, unfolded: Unfolded, id: nat)
    requires Rooted(nodes) && id < |nodes|
    ensures Showing(nodes, unfolded, [id]) == if Shown(nodes, unfolded, id) then [Path(nodes, id)] else []
  {
    assert [id][..0] == [];
  }

  /** A child is shown exactly when its parent is shown and unfolded. */
  lemma ShownStep(nodes: seq<Node>, unfolded: Unfolded, id: nat)
    requires Rooted(nodes) && id < |nodes| && nodes[id].parent.Some?
    ensures var p := nodes[id].parent.value;
            Shown(nodes, unfolded, id) <==> Path(nodes, p) in unfolded && Shown(nodes, unfolded, p)
  {
    var p := nodes[id].parent.value;
    var path, above := Path(nodes, id), Path(nodes, p);
    assert path[..|path| - 1] == above;
    assert forall k :: 0 < k < |above| ==> above[..k] == path[..k];
  }

  lemma HiddenBelow(nodes: seq<Node>, unfolded: Unfolded, id: nat, x: nat)
    requires Rooted(nodes) && x < |nodes| && id in Trail(nodes, x) && id != x && Path(nodes, id) !in unfolded
    ensures !Shown(nodes, unfolded, x)
  {
    TrailLevel(nodes, x, id);
    var k := |Trail(nodes, id)|;
    TrailWithin(nodes, x, k - 1);
    assert Path(nodes, x)[..k] == Path(nodes, id);
  }

  /** Nothing below a closed branch is shown. */
  lemma NothingBelowClosed(nodes: seq<Node>, unfolded: Unfolded, id: nat)
    requires Rooted(nodes) && Linked(nodes) && Descending(nodes) && id < |nodes| && Path(nodes, id) !in unfolded
    ensures Showing(nodes, unfolded, Preorder(nodes, nodes[id].children, id + 1)) == []
  {
    hide Linked, Preorder, Trail, Path, Shown;
    var below := Preorder(nodes, nodes[id].children, id + 1);
    forall j | 0 <= j < |below| ensures !Shown(nodes, unfolded, below[j]) {
      var c := PreorderIsBelow(nodes, nodes[id].children, id + 1, below[j]);
      ChildOf(nodes, id, c);
      ParentOnTrail(nodes, below[j], c);
      HiddenBelow(nodes, unfolded, id, below[j]);
    }
    ShowingNone(nodes, unfolded, below);
  }

  /** `collect_visible`: the walk that skips closed branches sees what is shown, in tree order. */
  method CollectVisible(nodes: seq<Node>, ids: seq<nat>, ghost lo: nat, unfolded: Unfolded, path: seq<string>,
                        output: seq<seq<string>>) returns (more: seq<seq<string>>)
    requires Rooted(nodes) && Linked(nodes) && Descending(nodes) && From(nodes, ids, lo)
    requires forall k :: 0 <= k < |ids| ==> Path(nodes, ids[k]) == path + [nodes[ids[k]].identifier]
    requires forall k :: 0 <= k < |ids| ==> Shown(nodes, unfolded, ids[k])
    ensures more == output + Showing(nodes, unfolded, Preorder(nodes, ids, lo))
    decreases |nodes| - lo
  {
    hide Linked, Preorder, Showing, Shown, Path;
    more := output;
    PreorderOfNone(nodes, lo);
    ShowingNone(nodes, unfolded, []);
    assert ids[..0] == [];
    var i := 0;
    while i < |ids|
      invariant 0 <= i <= |ids|
      invariant more == output + Showing(nodes, unfolded, Preorder(nodes, ids[..i], lo))
    {
      var id := ids[i];
      var here := path + [nodes[id].identifier];
      more := more + [here];
      if here in unfolded {
        ChildrenShown(nodes, unfolded, id);
        more := CollectVisible(nodes, nodes[id].children, id + 1, unfolded, here, more);
      } else {
        NothingBelowClosed(nodes, unfolded, id);
      }
      VisibleStep(nodes, unfolded, ids, lo, i);
      i := i + 1;
    }
    assert ids[..i] == ids;
  }

  lemma ChildrenShown(nodes: seq<Node>, unfolded: Unfolded, id: nat)
    requires Rooted(nodes) && Linked(nodes) && Descending(nodes) && id < |nodes|
    requires Shown(nodes, unfolded, id) && Path(nodes, id) in unfolded
    ensures forall k :: 0 <= k < |nodes[id].children| ==>
              && Shown(nodes, unfolded, nodes[id].children[k])
              && Path(nodes, nodes[id].children[k]) == Path(nodes, id) + [nodes[nodes[id].children[k]].identifier]
  {
    hide Shown, Path, Trail;
    ChildrenOf(nodes, id);
    forall k | 0 <= k < |nodes[id].children|
      ensures Shown(nodes, unfolded, nodes[id].children[k])
      ensures Path(nodes, nodes[id].children[k]) == Path(nodes, id) + [nodes[nodes[id].children[k]].identifier]
    {
      ShownStep(nodes, unfolded, nodes[id].children[k]);
      OneLevelDown(nodes, nodes[id].children[k]);
    }
  }

  lemma VisibleStep(nodes: seq<Node>, unfolded: Unfolded, ids: seq<nat>, lo: nat, i: nat)
    requires Rooted(nodes) && Descending(nodes) && From(nodes, ids, lo) && i < |ids|
    requires Shown(nodes, unfolded, ids[i])
    ensures Showing(nodes, unfolded, Preorder(nodes, ids[..i + 1], lo)) ==
            Showing(nodes, unfolded, Preorder(nodes, ids[..i], lo)) + [Path(nodes, ids[i])]
            + Showing(nodes, unfolded, Preorder(nodes, nodes[ids[i]].children, ids[i] + 1))
  {
    hide Preorder, Showing, Shown, Path;
    var before, id := Preorder(nodes, ids[..i], lo), ids[i];
    var below := Preorder(nodes, nodes[id].children, id + 1);
    PreorderStep(nodes, ids, lo, i);
    ShowingJoin(nodes, unfolded, before + [id], below);
    ShowingJoin(nodes, unfolded, before, [id]);
    ShowingOne(nodes, unfolded, id);
  }

  /** `visible_paths` */
  method VisiblePaths(roots: seq<nat>, nodes: seq<Node>, unfoldedPaths: seq<seq<string>>)
      returns (visible: seq<seq<string>>)
    requires Shaped(roots, nodes)
    ensures Rooted(nodes) && Descending(nodes) && From(nodes, roots, 0)
    ensures visible == Showing(nodes, (set p | p in unfoldedPaths), Preorder(nodes, roots, 0))
  {
    LinkedDescends(nodes);
    Listed(nodes, roots, None);
    var unfolded := set p | p in unfoldedPaths;
    hide Linked, Lists, DistinctSiblings, Preorder, Showing;
    visible := CollectVisible(nodes, roots, 0, unfolded, [], []);
  }
}
