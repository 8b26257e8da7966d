/** Retention while handles go on growing the records: the store's byte count is sampled when a
    record comes in and reduced by what the record has become when it leaves, and it still never
    exceeds what the stored records hold. */
module RetentionRuns {
  import opened Basics
  import opened ChangeFeed
  import opened StoreMachine
  import opened Sums

  function Self(n: nat): nat { n }

  function Share(recs: seq<Rec>, m: map<nat, nat>, id: nat): nat
    requires id < |recs|
  {
    if recs[id].sequence in m && m[recs[id].sequence] == id then recs[id].size else 0
  }

  /** What each record adds to the bytes of those that `m` names. */
  function Shares(recs: seq<Rec>, m: map<nat, nat>): seq<nat> {
    seq(|recs|, id requires 0 <= id < |recs| => Share(recs, m, id))
  }

  /** The current sizes of the records that `m` names, added up. */
  function Held(recs: seq<Rec>, m: map<nat, nat>): nat { Sum(Shares(recs, m), Self) }

  /** What the byte count must not exceed, given where the store is: a record that has left, but
      has not been subtracted yet, still counts. */
  function Ceiling(w: World): nat {
    match w.busy
    case Replacing(previous, id, _) => Swapped(w, previous, id)
    case Subtracting(previous, id, _) => Swapped(w, previous, id)
    case Dropping(id, _, _) => Held(w.recs, w.stored) + SizeOf(w, id)
    case Forgetting(id, _) => Held(w.recs, w.stored) + SizeOf(w, id)
    case _ => Held(w.recs, w.stored)
  }

  function SizeOf(w: World, id: nat): nat { if id < |w.recs| then w.recs[id].size else 0 }

  function Swapped(w: World, previous: nat, id: nat): nat {
    (if id < |w.recs| then Held(w.recs, w.stored - {w.recs[id].sequence}) else 0) + SizeOf(w, previous)
  }

  /** Between two inserts the store is within its policy. */
  predicate Settled(w: World) {
    match w.busy
    case Idle => !Over(w)
    case Deleting(_) => !Over(w)
    case Sweeping(_) => !Over(w)
    case Dropping(_, _, next) => next.Enforcing? || !Over(w)
    case Forgetting(_, next) => next.Enforcing? || !Over(w)
    case _ => true
  }

  ghost predicate Inv(w: World) { Placed(w) && w.cached <= Ceiling(w) && Settled(w) }

  // ---------------------------------------------------------------------------------------
  // Sums of sizes

  lemma HeldWithout(recs: seq<Rec>, m: map<nat, nat>, q: nat)
    requires q in m && m[q] < |recs| && recs[m[q]].sequence == q
    ensures Held(recs, m) == Held(recs, m - {q}) + recs[m[q]].size
  {
    var id := m[q];
    var less := Shares(recs, m - {q});
    forall i | 0 <= i < |recs| ensures less[i] == Shares(recs, m)[id := 0][i] {}
    assert less == Shares(recs, m)[id := 0];
    SumUpdate(Shares(recs, m), id, 0, Self);
  }

  lemma HeldWith(recs: seq<Rec>, m: map<nat, nat>, id: nat)
    requires id < |recs| && recs[id].sequence !in m
    ensures Held(recs, m[recs[id].sequence := id]) == Held(recs, m) + recs[id].size
  {
    var q := recs[id].sequence;
    assert m[q := id] - {q} == m;
    HeldWithout(recs, m[q := id], q);
  }

  lemma HeldGrows(w: World, w': World, m: map<nat, nat>)
    requires Grows(w, w')
    ensures Held(w.recs, m) <= Held(w'.recs, m)
  {
    var a, b := Shares(w.recs, m), Shares(w'.recs, m);
    var n := |a|;
    assert b == b[..n] + b[n..];
    SumConcat(b[..n], b[n..], Self);
    forall i | 0 <= i < n ensures Self(a[i]) <= Self(b[..n][i]) {}
    SumMono(a, b[..n], Self);
  }

  lemma HeldNothing(recs: seq<Rec>)
    ensures Held(recs, map[]) == 0
  {
    SumZero(Shares(recs, map[]), Self);
  }

  // ---------------------------------------------------------------------------------------
  // Every step

  /** Records growing leave room where there was room. */
  lemma GrowthInv(w: World, s: Step)
    requires Inv(w) && Enabled(w, s) && (s.Create? || s.Mutate?)
    ensures Inv(Take(w, s))
  {
    StepPlaced(w, s);
    TakeGrows(w, s);
    hide Held, Placed, Grows;
    CeilingGrows(w, Take(w, s));
  }

  /** So do records being taken on or off the feed. */
  lemma FeedInv(w: World, s: Step)
    requires Inv(w) && Enabled(w, s) && (s.UnbindReplaced? || s.UnbindDropped? || s.BindNew? || s.SweepOne?)
    ensures Inv(Take(w, s))
  {
    StepPlaced(w, s);
    TakeGrows(w, s);
    hide Held, Placed;
    CeilingGrows(w, Take(w, s).(busy := w.busy));
  }

  lemma CeilingGrows(w: World, w': World)
    requires Placed(w) && Grows(w, w') && w'.stored == w.stored && w'.busy == w.busy
    ensures Ceiling(w) <= Ceiling(w')
  {
    HeldGrows(w, w', w.stored);
    match w.busy
    case Replacing(_, id, _) => HeldGrows(w, w', w.stored - {w.recs[id].sequence});
    case Subtracting(_, id, _) => HeldGrows(w, w', w.stored - {w.recs[id].sequence});
    case _ =>
  }

  lemma InsertInv(w: World, id: nat)
    requires Inv(w) && Enabled(w, BeginInsert(id))
    ensures Inv(Take(w, BeginInsert(id)))
  {
    StepPlaced(w, BeginInsert(id));
    var q := w.recs[id].sequence;
    if q in w.stored {
      HeldWithout(w.recs, w.stored, q);
      assert w.stored[q := id] - {q} == w.stored - {q};
    } else {
      HeldWith(w.recs, w.stored, id);
    }
    hide Held;
  }

  lemma SubtractReplacedInv(w: World)
    requires Inv(w) && Enabled(w, SubtractReplaced)
    ensures Inv(Take(w, SubtractReplaced))
  {
    StepPlaced(w, SubtractReplaced);
    HeldWithout(w.recs, w.stored, w.recs[w.busy.id].sequence);
    hide Held;
  }

  lemma DropInv(w: World, q: nat, kind: Kind, next: Busy)
    requires Inv(w) && q in w.stored && Next(next)
    requires w.busy.Idle? || w.busy.Deleting? || (w.busy.Enforcing? && next.Enforcing?)
    ensures var w' := w.(stored := w.stored - {q}, busy := Dropping(w.stored[q], kind, next));
            w'.cached <= Ceiling(w') && Settled(w')
  {
    HeldWithout(w.recs, w.stored, q);
    FewerKeys(w.stored, q);
    hide Held;
  }

  lemma FewerKeys(m: map<nat, nat>, q: nat)
    requires q in m
    ensures |m - {q}| < |m|
  {
    assert (m - {q}).Keys == m.Keys - {q};
  }

  lemma PickInv(w: World, s: Step)
    requires Inv(w) && Enabled(w, s) && (s.PickOldest? || s.EvictOldest? || s.PickDeleted?)
    ensures Inv(Take(w, s))
  {
    hide Held, Ceiling, Oldest;
    StepPlaced(w, s);
    match s
    case PickOldest => DropInv(w, Oldest(w.stored), RetentionEviction, Enforcing);
    case EvictOldest => DropInv(w, Oldest(w.stored), RetentionEviction, Idle);
    case PickDeleted(q) =>
      if q in w.stored { DropInv(w, q, ExplicitDelete, Deleting(w.busy.rest - {q})); }
      else { SameCeiling(w, Take(w, s)); }
  }

  lemma SameCeiling(w: World, w': World)
    requires w.busy.Deleting? && w'.busy.Deleting? && w'.recs == w.recs && w'.stored == w.stored
    ensures Ceiling(w') == Ceiling(w)
  {
  }

  lemma EndInv(w: World, s: Step)
    requires Inv(w) && Enabled(w, s)
    requires || s.SubtractDropped? || s.EndEnforcing? || s.BeginDelete? || s.EndDelete? || s.BeginClear? || s.EndClear?
    ensures Inv(Take(w, s))
  {
    StepPlaced(w, s);
    HeldNothing(w.recs);
    hide Held;
  }

  lemma StepInv(w: World, s: Step)
    requires Inv(w) && Enabled(w, s)
    ensures Inv(Take(w, s))
  {
    hide Inv;
    match s
    case BeginInsert(id) => InsertInv(w, id);
    case SubtractReplaced => SubtractReplacedInv(w);
    case PickOldest => PickInv(w, s);
    case EvictOldest => PickInv(w, s);
    case PickDeleted(_) => PickInv(w, s);
    case Create(_, _) => GrowthInv(w, s);
    case Mutate(_, _) => GrowthInv(w, s);
    case UnbindReplaced => FeedInv(w, s);
    case UnbindDropped => FeedInv(w, s);
    case BindNew => FeedInv(w, s);
    case SweepOne(_) => FeedInv(w, s);
    case _ => EndInv(w, s);
  }

  lemma {:induction false} ReachInv(w: World, steps: seq<Step>)
    requires Inv(w) && Legal(w, steps)
    ensures Inv(Reach(w, steps))
    decreases |steps|
  {
    hide Inv;
    if steps != [] {
      StepInv(w, steps[0]);
      ReachInv(Take(w, steps[0]), steps[1..]);
    }
  }

  /** Retention, in every run: whenever no store operation is under way the store is within its
      policy and its byte count does not exceed what its records hold; and while it enforces the
      policy, it goes on evicting exactly as long as the policy is exceeded, for as long as that is
      the case there is something to evict, and it stops within the policy. */
  lemma RetentionHolds(maxRecords: nat, maxBytes: nat, steps: seq<Step>)
    requires Legal(Start(maxRecords, maxBytes), steps)
    ensures var w := Reach(Start(maxRecords, maxBytes), steps);
            && w.maxRecords == maxRecords && w.maxBytes == maxBytes
            && (w.busy.Idle? ==>
                  |w.stored| <= maxRecords && w.cached <= maxBytes && w.cached <= Held(w.recs, w.stored))
            && (w.busy.Enforcing? ==>
                  && w.cached <= Held(w.recs, w.stored)
                  && (Over(w) ==> w.stored != map[])
                  && (Enabled(w, PickOldest) <==> Over(w))
                  && (Enabled(w, EndEnforcing) <==> !Over(w)))
  {
    var start := Start(maxRecords, maxBytes);
    SameLimits(start, steps);
    hide Legal, Reach;
    ReachInv(start, steps);
    HeldNothing(Reach(start, steps).recs);
    hide Held;
  }

  lemma {:induction false} SameLimits(w: World, steps: seq<Step>)
    requires Legal(w, steps)
    ensures Reach(w, steps).maxRecords == w.maxRecords && Reach(w, steps).maxBytes == w.maxBytes
    decreases |steps|
  {
    if steps != [] { SameLimits(Take(w, steps[0]), steps[1..]); }
  }
}
