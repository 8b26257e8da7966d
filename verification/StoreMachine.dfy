/** The store, its records and the change feed as one machine whose steps are the atomic ones of
    the code: store operations are split at every look at a shared record, and handles mutate
    records between any two of them. */
module StoreMachine {
  import opened Basics
  import opened ChangeFeed

  /** `size` is the record's `retained_bytes`. A disabled record keeps nothing more. */
  datatype Rec = Rec(sequence: nat, revision: nat, bound: bool, disabled: bool, size: nat)

  /** What the store is in the middle of. Store operations exclude each other; handles do not
      wait for them. `sample` is the size a record had when it was put in. */
  datatype Busy =
    | Idle
    | Replacing(previous: nat, id: nat, sample: nat)
    | Subtracting(previous: nat, id: nat, sample: nat)
    | Binding(id: nat)
    | Enforcing
    | Deleting(rest: set<nat>)
    | Dropping(id: nat, kind: Kind, next: Busy)
    | Forgetting(id: nat, next: Busy)
    | Sweeping(left: set<nat>)

  /** `stored` maps sequences to records by identity, so two records may share a sequence.
      `cached` is the store's own byte count. */
  datatype World = World(
    recs: seq<Rec>, stored: map<nat, nat>, log: seq<Change>, busy: Busy,
    cached: nat, maxRecords: nat, maxBytes: nat)

  datatype Step =
    | Create(sequence: nat, size: nat)
    | Mutate(id: nat, growth: nat)
    | BeginInsert(id: nat)
    | UnbindReplaced
    | SubtractReplaced
    | BindNew
    | PickOldest
    | EvictOldest
    | EndEnforcing
    | BeginDelete(sequences: set<nat>)
    | PickDeleted(sequence: nat)
    | EndDelete
    | UnbindDropped
    | SubtractDropped
    | BeginClear
    | SweepOne(sequence: nat)
    | EndClear

  function Start(maxRecords: nat, maxBytes: nat): World { World([], map[], [], Idle, 0, maxRecords, maxBytes) }

  /** The guard of the eviction loop. */
  predicate Over(w: World) { |w.stored| > w.maxRecords || w.cached > w.maxBytes }

  predicate IsLeast(q: nat, s: set<nat>) { q in s && forall r :: r in s ==> q <= r }

  predicate Enabled(w: World, s: Step) {
    match s
    case Create(_, _) => true
    case Mutate(id, _) => id < |w.recs|
    case BeginInsert(id) => w.busy.Idle? && id < |w.recs|
    case UnbindReplaced => w.busy.Replacing? && w.busy.previous < |w.recs|
    case SubtractReplaced => w.busy.Subtracting? && w.busy.previous < |w.recs|
    case BindNew => w.busy.Binding? && w.busy.id < |w.recs|
    case PickOldest => w.busy.Enforcing? && Over(w) && w.stored != map[]
    case EvictOldest => w.busy.Idle? && w.stored != map[]
    case EndEnforcing => w.busy.Enforcing? && (!Over(w) || w.stored == map[])
    case BeginDelete(_) => w.busy.Idle?
    case PickDeleted(q) => w.busy.Deleting? && IsLeast(q, w.busy.rest)
    case EndDelete => w.busy.Deleting? && w.busy.rest == {}
    case UnbindDropped => w.busy.Dropping? && w.busy.id < |w.recs|
    case SubtractDropped => w.busy.Forgetting? && w.busy.id < |w.recs|
    case BeginClear => w.busy.Idle?
    case SweepOne(q) =>
      w.busy.Sweeping? && IsLeast(q, w.busy.left) && q in w.stored && w.stored[q] < |w.recs|
    case EndClear => w.busy.Sweeping? && w.busy.left == {}
  }

  /** The smallest key of a store. */
  function Oldest(stored: map<nat, nat>): (q: nat)
    requires stored != map[]
    ensures q in stored && forall k :: k in stored ==> q <= k
  {
    LeastExists(stored.Keys);
    var q :| q in stored && forall k :: k in stored ==> q <= k;
    q
  }

  function Publish(w: World, id: nat, kind: Kind): seq<Change>
    requires id < |w.recs|
  {
    w.log + [Change(|w.log| + 1, w.recs[id].sequence, w.recs[id].revision, kind)]
  }

  /** `bind_change_feed`, `remove_from_store` and a handle's mutation, each under the record lock. */
  function Bind(w: World, id: nat): World
    requires id < |w.recs|
  {
    if w.recs[id].bound then w
    else w.(log := Publish(w, id, Admitted), recs := w.recs[id := w.recs[id].(bound := true)])
  }

  function Unbind(w: World, id: nat, kind: Kind): World
    requires id < |w.recs|
  {
    w.(log := if w.recs[id].bound then Publish(w, id, kind) else w.log,
       recs := w.recs[id := w.recs[id].(bound := false, disabled := true)])
  }

  function Mutated(w: World, id: nat, growth: nat): World
    requires id < |w.recs|
  {
    var r := w.recs[id];
    var w' := w.(recs := w.recs[id := r.(revision := r.revision + 1,
                                         size := r.size + if r.disabled then 0 else growth)]);
    if r.bound then w'.(log := Publish(w', id, RecordUpdated)) else w'
  }

  function Take(w: World, s: Step): World
    requires Enabled(w, s)
  {
    match s
    case Create(q, size) => w.(recs := w.recs + [Rec(q, 0, false, false, size)])
    case Mutate(id, growth) => Mutated(w, id, growth)
    case BeginInsert(id) =>
      var q, sample := w.recs[id].sequence, w.recs[id].size;
      if q in w.stored then w.(stored := w.stored[q := id], busy := Replacing(w.stored[q], id, sample))
      else w.(stored := w.stored[q := id], cached := w.cached + sample, busy := Binding(id))
    case UnbindReplaced =>
      Unbind(w, w.busy.previous, ExplicitDelete).(busy := Subtracting(w.busy.previous, w.busy.id, w.busy.sample))
    case SubtractReplaced =>
      w.(cached := Minus(w.cached, w.recs[w.busy.previous].size) + w.busy.sample, busy := Binding(w.busy.id))
    case BindNew => Bind(w, w.busy.id).(busy := Enforcing)
    case PickOldest =>
      var q := Oldest(w.stored);
      w.(stored := w.stored - {q}, busy := Dropping(w.stored[q], RetentionEviction, Enforcing))
    case EvictOldest =>
      var q := Oldest(w.stored);
      w.(stored := w.stored - {q}, busy := Dropping(w.stored[q], RetentionEviction, Idle))
    case EndEnforcing => w.(busy := Idle)
    case BeginDelete(qs) => w.(busy := Deleting(qs))
    case PickDeleted(q) =>
      if q in w.stored
      then w.(stored := w.stored - {q}, busy := Dropping(w.stored[q], ExplicitDelete, Deleting(w.busy.rest - {q})))
      else w.(busy := Deleting(w.busy.rest - {q}))
    case EndDelete => w.(busy := Idle)
    case UnbindDropped => Unbind(w, w.busy.id, w.busy.kind).(busy := Forgetting(w.busy.id, w.busy.next))
    case SubtractDropped => w.(cached := Minus(w.cached, w.recs[w.busy.id].size), busy := w.busy.next)
    case BeginClear => w.(busy := Sweeping(w.stored.Keys))
    case SweepOne(q) => Unbind(w, w.stored[q], Cleared).(busy := Sweeping(w.busy.left - {q}))
    case EndClear => w.(stored := map[], cached := 0, busy := Idle)
  }

  // ---------------------------------------------------------------------------------------
  // Where the store is

  /** Keys name records of that sequence. */
  ghost predicate Names(w: World, m: map<nat, nat>) {
    forall q :: q in m ==> m[q] < |w.recs| && w.recs[m[q]].sequence == q
  }

  predicate Next(b: Busy) { b.Idle? || b.Enforcing? || b.Deleting? }

  predicate BusyOk(w: World) {
    match w.busy
    case Replacing(previous, id, sample) => SwapOk(w, previous, id, sample)
    case Subtracting(previous, id, sample) => SwapOk(w, previous, id, sample)
    case Binding(id) =>
      id < |w.recs| && w.recs[id].sequence in w.stored && w.stored[w.recs[id].sequence] == id
    case Dropping(id, kind, next) =>
      id < |w.recs| && w.recs[id].sequence !in w.stored && kind.Removal() && Next(next)
    case Forgetting(id, next) => id < |w.recs| && w.recs[id].sequence !in w.stored && Next(next)
    case Sweeping(left) => left <= w.stored.Keys
    case _ => true
  }

  predicate SwapOk(w: World, previous: nat, id: nat, sample: nat) {
    && previous < |w.recs| && id < |w.recs| && w.recs[previous].sequence == w.recs[id].sequence
    && w.recs[id].sequence in w.stored && w.stored[w.recs[id].sequence] == id
    && sample <= w.recs[id].size
  }

  /** The store's own side of a world is in order. */
  ghost predicate Placed(w: World) { Names(w, w.stored) && BusyOk(w) }

  /** Records keep their sequence and their place, and never shrink. */
  ghost predicate Grows(w: World, w': World) {
    && |w.recs| <= |w'.recs|
    && forall id :: 0 <= id < |w.recs| ==>
         w'.recs[id].sequence == w.recs[id].sequence && w'.recs[id].size >= w.recs[id].size
  }

  lemma TakeGrows(w: World, s: Step)
    requires Enabled(w, s)
    ensures Grows(w, Take(w, s))
  {
  }

  lemma PlacedGrows(w: World, w': World)
    requires Placed(w) && Grows(w, w') && w'.stored == w.stored && w'.busy == w.busy
    ensures Placed(w')
  {
  }

  lemma PlacedInsert(w: World, id: nat)
    requires Placed(w) && Enabled(w, BeginInsert(id))
    ensures Placed(Take(w, BeginInsert(id)))
  {
  }

  lemma PlacedDrop(w: World, q: nat, kind: Kind, next: Busy)
    requires Placed(w) && q in w.stored && kind.Removal() && Next(next)
    ensures Placed(w.(stored := w.stored - {q}, busy := Dropping(w.stored[q], kind, next)))
  {
  }

  lemma PlacedUnbind(w: World, s: Step)
    requires Placed(w) && Enabled(w, s) && (s.UnbindReplaced? || s.UnbindDropped? || s.BindNew? || s.SweepOne?)
    ensures Placed(Take(w, s))
  {
    TakeGrows(w, s);
  }

  lemma StepPlaced(w: World, s: Step)
    requires Placed(w) && Enabled(w, s)
    ensures Placed(Take(w, s))
  {
    hide Placed, Oldest;
    match s
    case Create(_, _) => TakeGrows(w, s); PlacedGrows(w, Take(w, s));
    case Mutate(_, _) => TakeGrows(w, s); PlacedGrows(w, Take(w, s));
    case BeginInsert(id) => PlacedInsert(w, id);
    case PickOldest => PlacedDrop(w, Oldest(w.stored), RetentionEviction, Enforcing);
    case EvictOldest => PlacedDrop(w, Oldest(w.stored), RetentionEviction, Idle);
    case PickDeleted(q) =>
      if q in w.stored { PlacedDrop(w, q, ExplicitDelete, Deleting(w.busy.rest - {q})); } else { PlacedQuiet(w, s); }
    case UnbindReplaced => PlacedUnbind(w, s);
    case UnbindDropped => PlacedUnbind(w, s);
    case BindNew => PlacedUnbind(w, s);
    case SweepOne(_) => PlacedUnbind(w, s);
    case _ => PlacedQuiet(w, s);
  }

  lemma PlacedQuiet(w: World, s: Step)
    requires Placed(w) && Enabled(w, s)
    requires || s.SubtractReplaced? || s.EndEnforcing? || s.BeginDelete? || s.EndDelete? || s.SubtractDropped?
             || s.BeginClear? || s.EndClear? || (s.PickDeleted? && s.sequence !in w.stored)
    ensures Placed(Take(w, s))
  {
  }

  /** A record that left the store, or never reached it again, keeps nothing more. */
  lemma DisabledStays(w: World, s: Step, id: nat)
    requires Enabled(w, s) && id < |w.recs| && w.recs[id].disabled
    ensures var r := Take(w, s).recs[id]; r.disabled && r.size == w.recs[id].size
  {
  }

  // ---------------------------------------------------------------------------------------
  // Runs

  predicate Legal(w: World, steps: seq<Step>)
    decreases |steps|
  {
    steps == [] || (Enabled(w, steps[0]) && Legal(Take(w, steps[0]), steps[1..]))
  }

  function Reach(w: World, steps: seq<Step>): World
    requires Legal(w, steps)
    decreases |steps|
  {
    if steps == [] then w else Reach(Take(w, steps[0]), steps[1..])
  }

  function RevisionOf(w: World, id: nat): nat { if id < |w.recs| then w.recs[id].revision else 0 }

  /** How often a handle changed the record. */
  function Changes(steps: seq<Step>, id: nat): nat {
    if steps == [] then 0
    else (if steps[0].Mutate? && steps[0].id == id then 1 else 0) + Changes(steps[1..], id)
  }

  /** A record's revision counts its changes, whatever the store does meanwhile. */
  lemma {:induction false} RevisionCounts(w: World, steps: seq<Step>, id: nat)
    requires Legal(w, steps)
    ensures RevisionOf(Reach(w, steps), id) == RevisionOf(w, id) + Changes(steps, id)
    decreases |steps|
  {
    if steps != [] {
      RevisionStep(w, steps[0], id);
      hide Take;
      RevisionCounts(Take(w, steps[0]), steps[1..], id);
    }
  }

  lemma RevisionStep(w: World, s: Step, id: nat)
    requires Enabled(w, s)
    ensures RevisionOf(Take(w, s), id) == RevisionOf(w, id) + if s.Mutate? && s.id == id then 1 else 0
  {
  }
}
