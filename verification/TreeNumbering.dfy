/** The order in which the request tree is numbered: from the top down, and siblings, each with all
    that is below it, in the order of their list. */
module TreeNumbering {
  import opened Basics
  import opened TreePaths
  import opened TreeIndex

  /** The lists of siblings: the roots, and every node's children. */
  ghost predicate InList(nodes: seq<Node>, roots: seq<nat>, a: nat, b: nat) {
    Precedes(roots, a, b) || exists p :: 0 <= p < |nodes| && Precedes(nodes[p].children, a, b)
  }

  /** `x` stands above `y`, or where their trails part the one of `x` goes on in front. */
  ghost predicate ComesFirst(nodes: seq<Node>, roots: seq<nat>, x: nat, y: nat)
    requires Rooted(nodes) && x < |nodes| && y < |nodes|
  {
    || (x != y && x in Trail(nodes, y))
    || exists a, b :: InList(nodes, roots, a, b) && a in Trail(nodes, x) && b in Trail(nodes, y)
  }

  ghost predicate DocumentOrder(nodes: seq<Node>, roots: seq<nat>, order: seq<nat>)
    requires Rooted(nodes) && From(nodes, order, 0)
  {
    forall i, j :: 0 <= i < j < |order| ==> ComesFirst(nodes, roots, order[i], order[j])
  }

  /** `ids` begins one of the lists. */
  ghost predicate Begins(nodes: seq<Node>, roots: seq<nat>, ids: seq<nat>) {
    ids <= roots || exists p :: 0 <= p < |nodes| && ids <= nodes[p].children
  }

  lemma InFront(nodes: seq<Node>, roots: seq<nat>, ids: seq<nat>, a: nat)
    requires Begins(nodes, roots, ids) && ids != [] && a in ids[..|ids| - 1]
    ensures InList(nodes, roots, a, ids[|ids| - 1])
  {
    var k :| 0 <= k < |ids| - 1 && ids[k] == a;
    if ids <= roots {
      assert roots[k] == a && roots[|ids| - 1] == ids[|ids| - 1];
      assert Precedes(roots, a, ids[|ids| - 1]);
    } else {
      var p :| 0 <= p < |nodes| && ids <= nodes[p].children;
      assert nodes[p].children[k] == a && nodes[p].children[|ids| - 1] == ids[|ids| - 1];
      assert Precedes(nodes[p].children, a, ids[|ids| - 1]);
    }
  }

  lemma BelowLast(nodes: seq<Node>, p: nat, y: nat)
    requires Rooted(nodes) && Linked(nodes) && Descending(nodes) && p < |nodes|
    requires y in Preorder(nodes, nodes[p].children, p + 1)
    ensures y < |nodes| && p in Trail(nodes, y) && y != p
  {
    hide Linked, Preorder, Trail;
    var c := PreorderIsBelow(nodes, nodes[p].children, p + 1, y);
    ChildOf(nodes, p, c);
    ParentOnTrail(nodes, y, c);
  }

  lemma {:induction false} PreorderInOrder(nodes: seq<Node>, roots: seq<nat>, ids: seq<nat>, lo: nat)
    requires Rooted(nodes) && Linked(nodes) && Descending(nodes) && From(nodes, ids, lo)
    requires Begins(nodes, roots, ids)
    ensures DocumentOrder(nodes, roots, Preorder(nodes, ids, lo))
    decreases |nodes| - lo, |ids|
  {
    hide Linked, Trail, ComesFirst, Begins;
    if ids != [] {
      var front, last := ids[..|ids| - 1], ids[|ids| - 1];
      BeginsFront(nodes, roots, ids);
      PreorderInOrder(nodes, roots, front, lo);
      BeginsChildren(nodes, roots, last);
      PreorderInOrder(nodes, roots, nodes[last].children, last + 1);
      var a, b := Preorder(nodes, front, lo), Preorder(nodes, nodes[last].children, last + 1);
      forall x | x in a ensures x < |nodes| && ComesFirst(nodes, roots, x, last) {
        FrontFirst(nodes, roots, ids, lo, x, last);
      }
      forall x, y | x in a && y in b ensures x < |nodes| && y < |nodes| && ComesFirst(nodes, roots, x, y) {
        BelowLast(nodes, last, y);
        FrontFirst(nodes, roots, ids, lo, x, y);
      }
      forall y | y in b ensures y < |nodes| && ComesFirst(nodes, roots, last, y) {
        BelowLast(nodes, last, y);
        Above(nodes, roots, last, y);
      }
      hide Preorder;
      Joined(nodes, roots, a, last, b);
    }
  }

  lemma BeginsFront(nodes: seq<Node>, roots: seq<nat>, ids: seq<nat>)
    requires Begins(nodes, roots, ids) && ids != []
    ensures Begins(nodes, roots, ids[..|ids| - 1])
  {
    if !(ids <= roots) {
      var p :| 0 <= p < |nodes| && ids <= nodes[p].children;
      assert ids[..|ids| - 1] <= nodes[p].children;
    }
  }

  lemma BeginsChildren(nodes: seq<Node>, roots: seq<nat>, p: nat)
    requires p < |nodes|
    ensures Begins(nodes, roots, nodes[p].children)
  {
  }

  lemma Above(nodes: seq<Node>, roots: seq<nat>, x: nat, y: nat)
    requires Rooted(nodes) && x < |nodes| && y < |nodes| && x != y && x in Trail(nodes, y)
    ensures ComesFirst(nodes, roots, x, y)
  {
  }

  /** What is at or below an earlier sibling comes before what is at or below the last. */
  lemma FrontFirst(nodes: seq<Node>, roots: seq<nat>, ids: seq<nat>, lo: nat, x: nat, y: nat)
    requires Rooted(nodes) && Linked(nodes) && Descending(nodes) && From(nodes, ids, lo)
    requires Begins(nodes, roots, ids) && ids != [] && x in Preorder(nodes, ids[..|ids| - 1], lo)
    requires y < |nodes| && ids[|ids| - 1] in Trail(nodes, y)
    ensures x < |nodes| && ComesFirst(nodes, roots, x, y)
  {
    hide Linked, Preorder, Trail, Begins, InList;
    var a := PreorderIsBelow(nodes, ids[..|ids| - 1], lo, x);
    InFront(nodes, roots, ids, a);
  }

  lemma Joined(nodes: seq<Node>, roots: seq<nat>, a: seq<nat>, m: nat, b: seq<nat>)
    requires Rooted(nodes) && From(nodes, a, 0) && From(nodes, b, 0) && m < |nodes|
    requires DocumentOrder(nodes, roots, a) && DocumentOrder(nodes, roots, b)
    requires forall x :: x in a ==> ComesFirst(nodes, roots, x, m)
    requires forall y :: y in b ==> ComesFirst(nodes, roots, m, y)
    requires forall x, y :: x in a && y in b ==> ComesFirst(nodes, roots, x, y)
    ensures From(nodes, a + [m] + b, 0) && DocumentOrder(nodes, roots, a + [m] + b)
  {
    hide ComesFirst;
    var s := a + [m] + b;
    forall i, j | 0 <= i < j < |s| ensures s[i] < |nodes| && s[j] < |nodes| && ComesFirst(nodes, roots, s[i], s[j]) {
      assert i < |a| ==> s[i] == a[i] && a[i] in a;
      assert j > |a| ==> s[j] == b[j - |a| - 1] && b[j - |a| - 1] in b;
      if i > |a| { assert s[i] == b[i - |a| - 1]; }
    }
  }

  /** Nodes are numbered in document order. */
  lemma NumberedInOrder(roots: seq<nat>, nodes: seq<Node>, i: nat, j: nat)
    requires Shaped(roots, nodes)
    ensures Descending(nodes) && From(nodes, roots, 0)
    ensures var order := Preorder(nodes, roots, 0);
            i < j < |order| ==> ComesFirst(nodes, roots, order[i], order[j])
  {
    hide Preorder, ComesFirst, Lists;
    LinkedDescends(nodes);
    Listed(nodes, roots, None);
    PreorderInOrder(nodes, roots, roots, 0);
  }
}
