/** Folding everything ever published on the feed reproduces the store, whatever handles do while
    the store works. */
module FeedReplay {
  import opened Basics
  import opened ChangeFeed
  import opened FeedLog
  import opened StoreMachine

  /** Which record should be on the feed under each sequence, given where the store is. */
  function OnFeed(w: World): map<nat, nat> {
    match w.busy
    case Replacing(previous, id, _) =>
      if id < |w.recs| then w.stored[w.recs[id].sequence := previous] else w.stored
    case Subtracting(_, id, _) => if id < |w.recs| then w.stored - {w.recs[id].sequence} else w.stored
    case Binding(id) => if id < |w.recs| then w.stored - {w.recs[id].sequence} else w.stored
    case Dropping(id, _, _) => if id < |w.recs| then w.stored[w.recs[id].sequence := id] else w.stored
    case Sweeping(left) => map q | q in w.stored && q in left :: w.stored[q]
    case _ => w.stored
  }

  /** The table a set of named records stands for. */
  function Revisions(w: World, m: map<nat, nat>): Table
    requires Names(w, m)
  {
    map q | q in m :: w.recs[m[q]].revision
  }

  ghost predicate BoundExactly(w: World, m: map<nat, nat>) {
    forall id :: 0 <= id < |w.recs| ==>
      (w.recs[id].bound <==> w.recs[id].sequence in m && m[w.recs[id].sequence] == id)
  }

  ghost predicate Inv(w: World) {
    && Placed(w) && Names(w, OnFeed(w)) && BoundExactly(w, OnFeed(w))
    && Numbered(w.log)
    && Replay(w.log) == Some(Revisions(w, OnFeed(w)))
  }

  /** A mutation of a record on the feed raises its entry by one; any other changes no entry. */
  lemma UpdateTable(w: World, id: nat, growth: nat, m: map<nat, nat>)
    requires id < |w.recs| && Names(w, m) && BoundExactly(w, m) && Numbered(w.log)
    requires Replay(w.log) == Some(Revisions(w, m))
    ensures var w' := Mutated(w, id, growth);
            && Names(w', m) && BoundExactly(w', m) && Numbered(w'.log)
            && Replay(w'.log) == Some(Revisions(w', m))
  {
    hide Replay;
    var w' := Mutated(w, id, growth);
    var q := w.recs[id].sequence;
    assert forall j :: 0 <= j < |w.recs| && j != id ==> w'.recs[j] == w.recs[j];
    if w.recs[id].bound {
      ReplaySnoc(w.log, w'.log[|w.log|]);
      assert w'.log == w.log + [w'.log[|w.log|]];
      assert Revisions(w', m) == Revisions(w, m)[q := w'.recs[id].revision];
    } else {
      assert Revisions(w', m) == Revisions(w, m);
    }
  }

  lemma MutateInv(w: World, id: nat, growth: nat)
    requires Inv(w) && id < |w.recs|
    ensures Inv(Mutated(w, id, growth))
  {
    UpdateTable(w, id, growth, OnFeed(w));
    StepPlaced(w, Mutate(id, growth));
    SamePlan(w, Mutated(w, id, growth));
    hide Replay, Revisions, BoundExactly, OnFeed, Placed, Names;
  }

  /** What should be on the feed depends on the store and on the sequences of the records. */
  lemma SamePlan(w: World, w': World)
    requires w'.stored == w.stored && w'.busy == w.busy && |w'.recs| == |w.recs|
    requires forall j :: 0 <= j < |w.recs| ==> w'.recs[j].sequence == w.recs[j].sequence
    ensures OnFeed(w') == OnFeed(w)
  {
  }

  /** Unbinding the record that is on the feed takes it, and only it, off the table. */
  lemma UnbindTable(w: World, id: nat, kind: Kind, m: map<nat, nat>)
    requires id < |w.recs| && kind.Removal() && Names(w, m) && BoundExactly(w, m) && Numbered(w.log)
    requires w.recs[id].sequence in m && m[w.recs[id].sequence] == id
    requires Replay(w.log) == Some(Revisions(w, m))
    ensures var w' := Unbind(w, id, kind);
            var m' := m - {w.recs[id].sequence};
            && Names(w', m') && BoundExactly(w', m') && Numbered(w'.log)
            && Replay(w'.log) == Some(Revisions(w', m'))
  {
    hide Replay;
    var w' := Unbind(w, id, kind);
    var m' := m - {w.recs[id].sequence};
    ReplaySnoc(w.log, w'.log[|w.log|]);
    assert Revisions(w', m') == Revisions(w, m) - {w.recs[id].sequence};
  }

  lemma BindTable(w: World, id: nat, m: map<nat, nat>)
    requires id < |w.recs| && Names(w, m) && BoundExactly(w, m) && Numbered(w.log)
    requires w.recs[id].sequence !in m
    requires Replay(w.log) == Some(Revisions(w, m))
    ensures var w' := Bind(w, id);
            var m' := m[w.recs[id].sequence := id];
            && Names(w', m') && BoundExactly(w', m') && Numbered(w'.log)
            && Replay(w'.log) == Some(Revisions(w', m'))
  {
    hide Replay;
    var w' := Bind(w, id);
    var m' := m[w.recs[id].sequence := id];
    ReplaySnoc(w.log, w'.log[|w.log|]);
    assert Revisions(w', m') == Revisions(w, m)[w.recs[id].sequence := w.recs[id].revision];
  }

  /** A step that publishes nothing keeps the invariant if the feed's side does not move. */
  lemma QuietStep(w: World, w': World)
    requires Inv(w) && w'.log == w.log && w.recs <= w'.recs
    requires forall id :: |w.recs| <= id < |w'.recs| ==> !w'.recs[id].bound
    requires OnFeed(w') == OnFeed(w) && Placed(w')
    ensures Inv(w')
  {
    hide Replay, Placed, OnFeed;
    var m := OnFeed(w);
    assert forall id :: 0 <= id < |w.recs| ==> w'.recs[id] == w.recs[id];
    forall id | |w.recs| <= id < |w'.recs|
      ensures !(w'.recs[id].sequence in m && m[w'.recs[id].sequence] == id)
    {
    }
    assert Revisions(w', m) == Revisions(w, m);
  }

  predicate Publishes(s: Step) {
    s.Mutate? || s.UnbindReplaced? || s.BindNew? || s.UnbindDropped? || s.SweepOne?
  }

  lemma StepInv(w: World, s: Step)
    requires Inv(w) && Enabled(w, s)
    ensures Inv(Take(w, s))
  {
    hide Inv, Replay;
    match s
    case Mutate(id, growth) => MutateInv(w, id, growth);
    case UnbindReplaced => UnbindReplacedInv(w);
    case BindNew => BindNewInv(w);
    case UnbindDropped => UnbindDroppedInv(w);
    case SweepOne(q) => SweepOneInv(w, q);
    case _ => QuietInv(w, s);
  }

  lemma UnbindReplacedInv(w: World)
    requires Inv(w) && Enabled(w, UnbindReplaced)
    ensures Inv(Take(w, UnbindReplaced))
  {
    hide Replay;
    var w' := Take(w, UnbindReplaced);
    UnbindTable(w, w.busy.previous, ExplicitDelete, OnFeed(w));
    assert OnFeed(w') == OnFeed(w) - {w.recs[w.busy.previous].sequence};
  }

  lemma BindNewInv(w: World)
    requires Inv(w) && Enabled(w, BindNew)
    ensures Inv(Take(w, BindNew))
  {
    hide Replay;
    var w' := Take(w, BindNew);
    BindTable(w, w.busy.id, OnFeed(w));
    assert OnFeed(w') == OnFeed(w)[w.recs[w.busy.id].sequence := w.busy.id];
  }

  lemma UnbindDroppedInv(w: World)
    requires Inv(w) && Enabled(w, UnbindDropped)
    ensures Inv(Take(w, UnbindDropped))
  {
    hide Replay;
    var w' := Take(w, UnbindDropped);
    UnbindTable(w, w.busy.id, w.busy.kind, OnFeed(w));
    assert OnFeed(w') == OnFeed(w) - {w.recs[w.busy.id].sequence};
  }

  lemma SweepOneInv(w: World, q: nat)
    requires Inv(w) && Enabled(w, SweepOne(q))
    ensures Inv(Take(w, SweepOne(q)))
  {
    hide Replay;
    var w' := Take(w, SweepOne(q));
    UnbindTable(w, w.stored[q], Cleared, OnFeed(w));
    assert OnFeed(w') == OnFeed(w) - {q};
  }

  lemma QuietInv(w: World, s: Step)
    requires Inv(w) && Enabled(w, s) && !Publishes(s)
    ensures Inv(Take(w, s))
  {
    StepPlaced(w, s);
    QuietPlan(w, s);
    QuietStep(w, Take(w, s));
    hide Inv, Placed;
  }

  /** Taking something out of the store, or putting it in, before the feed hears of it. */
  lemma QuietPlan(w: World, s: Step)
    requires Placed(w) && Enabled(w, s) && !Publishes(s)
    ensures var w' := Take(w, s);
            && OnFeed(w') == OnFeed(w) && w'.log == w.log && w.recs <= w'.recs
            && (forall id :: |w.recs| <= id < |w'.recs| ==> !w'.recs[id].bound)
  {
    hide Oldest;
    match s
    case BeginInsert(id) => InsertPlan(w, id);
    case PickOldest => DropPlan(w, Oldest(w.stored), RetentionEviction, Enforcing);
    case EvictOldest => DropPlan(w, Oldest(w.stored), RetentionEviction, Idle);
    case PickDeleted(q) =>
      if q in w.stored { DropPlan(w, q, ExplicitDelete, Deleting(w.busy.rest - {q})); }
    case Create(_, _) => CreatePlan(w, s);
    case BeginClear => SweepPlan(w, s);
    case EndClear => SweepPlan(w, s);
    case SubtractDropped => assert Next(w.busy.next);
    case _ =>
  }

  lemma CreatePlan(w: World, s: Step)
    requires Placed(w) && s.Create?
    ensures OnFeed(Take(w, s)) == OnFeed(w)
  {
  }

  lemma SweepPlan(w: World, s: Step)
    requires (s.BeginClear? || s.EndClear?) && Enabled(w, s)
    ensures OnFeed(Take(w, s)) == OnFeed(w)
  {
  }

  lemma InsertPlan(w: World, id: nat)
    requires Placed(w) && Enabled(w, BeginInsert(id))
    ensures OnFeed(Take(w, BeginInsert(id))) == OnFeed(w)
  {
  }

  lemma DropPlan(w: World, q: nat, kind: Kind, next: Busy)
    requires Placed(w) && q in w.stored
    ensures OnFeed(w.(stored := w.stored - {q}, busy := Dropping(w.stored[q], kind, next))) == w.stored
  {
  }

  // ---------------------------------------------------------------------------------------
  // Runs

  lemma {:induction false} ReachInv(w: World, steps: seq<Step>)
    requires Inv(w) && Legal(w, steps)
    ensures Inv(Reach(w, steps))
    decreases |steps|
  {
    hide Inv;
    if steps != [] {
      StepInv(w, steps[0]);
      ReachInv(Take(w, steps[0]), steps[1..]);
    }
  }

  /** Whenever the store is between two operations, folding everything ever published gives
      exactly its sequence-to-revision map, and the fold never breaks on the way. */
  lemma FeedReplaysStore(maxRecords: nat, maxBytes: nat, steps: seq<Step>)
    requires Legal(Start(maxRecords, maxBytes), steps)
    ensures var w := Reach(Start(maxRecords, maxBytes), steps);
            && Replay(w.log).Some?
            && Names(w, w.stored)
            && (w.busy.Idle? ==> Replay(w.log) == Some(Revisions(w, w.stored)))
  {
    var start := Start(maxRecords, maxBytes);
    assert Inv(start) by {
      assert OnFeed(start) == map[] && Revisions(start, map[]) == map[];
    }
    hide Legal, Reach;
    ReachInv(start, steps);
  }
}
