/** Waking up. The change feed updates its state under a lock and signals the epoch afterwards,
    so signals can be late and even arrive in the wrong order; the capture dirty flag is raised
    before its notification. Neither loses a wake-up. */
module FeedWakeup {
  // ---------------------------------------------------------------------------------------
  // `recv` against any number of publishers

  /** Where a subscriber is: about to read, or holding "nothing new" and about to wait. It is
      parked while it waits and the watch channel has no version it has not seen. */
  datatype Place = Reading | Waiting

  datatype Subscriber = Subscriber(next: nat, seen: nat, place: Place)

  /** `unsignalled`: epochs whose publisher has updated the state but not yet signalled.
      `version` counts signals; `value` is the epoch the last signal carried. */
  datatype Net = Net(epoch: nat, unsignalled: set<nat>, version: nat, value: nat, subscribers: seq<Subscriber>)

  datatype Move =
    | UpdateState
    | Signal(epoch: nat)
    | Join(next: nat)
    | ReadNext(who: nat)
    | ReadGap(who: nat)
    | Wake(who: nat)
    | Leave(who: nat)

  const START: Net := Net(0, {}, 0, 0, [])

  predicate Parked(n: Net, who: nat) {
    who < |n.subscribers| && n.subscribers[who].place.Waiting? && n.subscribers[who].seen == n.version
  }

  predicate Unread(n: Net, who: nat) { who < |n.subscribers| && n.subscribers[who].next <= n.epoch }

  predicate Enabled(n: Net, m: Move) {
    match m
    case UpdateState => true
    case Signal(e) => e in n.unsignalled
    case Join(next) => 0 < next <= n.epoch + 1
    case ReadNext(who) => who < |n.subscribers| && n.subscribers[who].place.Reading?
    case ReadGap(who) => Unread(n, who) && n.subscribers[who].place.Reading?
    case Wake(who) => who < |n.subscribers| && n.subscribers[who].place.Waiting? && !Parked(n, who)
    case Leave(who) => who < |n.subscribers| && n.subscribers[who].place.Waiting?
  }

  /** One atomic step. `subscribe` reads the epoch before it takes the watch channel, so a new
      subscriber may start behind. A read moves on to the next change, reports a gap and stays
      where it is, or finds nothing; `Leave` is a caller that drops the `recv` future and calls it
      again later. */
  function Take(n: Net, m: Move): Net
    requires Enabled(n, m)
  {
    match m
    case UpdateState => n.(epoch := n.epoch + 1, unsignalled := n.unsignalled + {n.epoch + 1})
    case Signal(e) => n.(unsignalled := n.unsignalled - {e}, version := n.version + 1, value := e)
    case Join(next) => n.(subscribers := n.subscribers + [Subscriber(next, n.version, Reading)])
    case ReadNext(who) =>
      var s := n.subscribers[who];
      n.(subscribers := n.subscribers[who :=
        if s.next <= n.epoch then s.(next := s.next + 1) else s.(place := Waiting)])
    case ReadGap(who) => n
    case Wake(who) => n.(subscribers := n.subscribers[who := n.subscribers[who].(seen := n.version, place := Reading)])
    case Leave(who) => n.(subscribers := n.subscribers[who := n.subscribers[who].(place := Reading)])
  }

  ghost predicate NetInv(n: Net) {
    && (forall e :: e in n.unsignalled ==> 0 < e <= n.epoch)
    && (forall i :: 0 <= i < |n.subscribers| ==>
          var s := n.subscribers[i];
          && 0 < s.next <= n.epoch + 1 && s.seen <= n.version
          && (s.place.Waiting? && s.seen == n.version ==>
                forall e :: s.next <= e <= n.epoch ==> e in n.unsignalled))
  }

  lemma NetStep(n: Net, m: Move)
    requires NetInv(n) && Enabled(n, m)
    ensures NetInv(Take(n, m))
  {
    var t := Take(n, m);
    forall i | 0 <= i < |t.subscribers|
      ensures var s := t.subscribers[i];
              && 0 < s.next <= t.epoch + 1 && s.seen <= t.version
              && (s.place.Waiting? && s.seen == t.version ==>
                    forall e :: s.next <= e <= t.epoch ==> e in t.unsignalled)
    {
      if i < |n.subscribers| { assert n.subscribers[i].seen <= n.version; }
    }
  }

  /** The state a list of moves leads to; a move that is not enabled ends the run. */
  predicate Legal(n: Net, moves: seq<Move>)
    decreases |moves|
  {
    moves == [] || (Enabled(n, moves[0]) && Legal(Take(n, moves[0]), moves[1..]))
  }

  function Reach(n: Net, moves: seq<Move>): Net
    requires Legal(n, moves)
    decreases |moves|
  {
    if moves == [] then n else Reach(Take(n, moves[0]), moves[1..])
  }

  lemma {:induction false} ReachInv(n: Net, moves: seq<Move>)
    requires NetInv(n) && Legal(n, moves)
    ensures NetInv(Reach(n, moves))
    decreases |moves|
  {
    if moves != [] {
      NetStep(n, moves[0]);
      ReachInv(Take(n, moves[0]), moves[1..]);
    }
  }

  function Updates(moves: seq<Move>): nat {
    if moves == [] then 0 else (if moves[0].UpdateState? then 1 else 0) + Updates(moves[1..])
  }

  function Signals(moves: seq<Move>): nat {
    if moves == [] then 0 else (if moves[0].Signal? then 1 else 0) + Signals(moves[1..])
  }

  /** The epoch counts the changes, the version the signals, and a change is signalled once. */
  lemma {:induction false} EpochCounts(n: Net, moves: seq<Move>)
    requires NetInv(n) && Legal(n, moves)
    ensures var r := Reach(n, moves);
            && r.epoch == n.epoch + Updates(moves) && r.version == n.version + Signals(moves)
            && forall e :: e in r.unsignalled <==>
                 (e in n.unsignalled || n.epoch < e <= r.epoch) && Move.Signal(e) !in moves
    decreases |moves|
  {
    if moves != [] {
      var m, t := moves[0], Take(n, moves[0]);
      NetStep(n, m);
      EpochCounts(t, moves[1..]);
      hide NetInv;
      forall e ensures Move.Signal(e) in moves <==> m == Move.Signal(e) || Move.Signal(e) in moves[1..] {}
    }
  }

  /** One can subscribe at any epoch the feed has had, and then reads first. */
  lemma AnyoneMayJoin(n: Net, epoch: nat)
    requires epoch <= n.epoch
    ensures Enabled(n, Join(epoch + 1))
    ensures var joined := Take(n, Join(epoch + 1));
            joined.subscribers == n.subscribers + [Subscriber(epoch + 1, n.version, Reading)]
  {
  }

  /** No lost wake-up: whenever a subscriber is parked although something is unread, the publisher
      of every unread change is still about to signal, and its signal, whichever comes first and
      whatever epoch it carries, ends the wait. */
  lemma NoLostWakeup(moves: seq<Move>, who: nat)
    requires Legal(START, moves)
    ensures var n := Reach(START, moves);
            && n.epoch == Updates(moves) && n.version == Signals(moves)
            && (Parked(n, who) && n.subscribers[who].next <= n.epoch ==>
                  && n.unsignalled != {}
                  && (forall e :: n.subscribers[who].next <= e <= n.epoch ==> e in n.unsignalled)
                  && (forall e :: e in n.unsignalled ==>
                        Enabled(n, Signal(e)) && Enabled(Take(n, Signal(e)), Wake(who))))
  {
    EpochCounts(START, moves);
    hide Legal, Reach;
    ReachInv(START, moves);
    var n := Reach(START, moves);
    if Parked(n, who) && Unread(n, who) {
      assert n.epoch in n.unsignalled;
    }
  }

  /** Signals really do go backwards: the channel can end up showing an older epoch than the feed
      has, with nobody left to signal. */
  lemma SignalsGoBackwards()
    ensures var moves := [UpdateState, UpdateState, Signal(2), Signal(1)];
            && Legal(START, moves)
            && var n := Reach(START, moves);
            n.unsignalled == {} && n.value < n.epoch
  {
    var moves := [UpdateState, UpdateState, Signal(2), Signal(1)];
    var a := Take(START, UpdateState);
    var b := Take(a, UpdateState);
    assert b.unsignalled == {1, 2};
    var c := Take(b, Signal(2));
    var d := Take(c, Signal(1));
    assert d.unsignalled == {};
    assert moves[1..] == [UpdateState, Signal(2), Signal(1)] && moves[1..][1..] == [Signal(2), Signal(1)];
    assert moves[1..][1..][1..] == [Signal(1)] && moves[1..][1..][1..][1..] == [];
    assert Legal(d, []) && Reach(d, []) == d;
    assert Legal(c, [Signal(1)]) && Reach(c, [Signal(1)]) == d;
    assert Legal(b, [Signal(2), Signal(1)]) && Reach(b, [Signal(2), Signal(1)]) == d;
    assert Legal(a, moves[1..]) && Reach(a, moves[1..]) == d;
  }

  // ---------------------------------------------------------------------------------------
  // The capture dirty flag and its one waiter

  /** `raised`: marks that turned the flag on and have not notified yet. `permit`: a notification
      stored because nobody was parked. The waiter checks the flag, then waits; waiting takes a
      stored permit if there is one and parks otherwise. */
  datatype Waiter = Checking | Missed | Asleep | Served

  datatype Dirty = Dirty(pending: bool, raised: nat, permit: bool, waiter: Waiter)

  datatype Event = Mark | Notify | Check | Await | Serve | Abandon

  predicate Possible(d: Dirty, e: Event) {
    match e
    case Mark => true
    case Notify => d.raised > 0
    case Check => d.waiter.Checking?
    case Await => d.waiter.Missed?
    case Serve => d.waiter.Served?
    case Abandon => d.waiter.Asleep? || d.waiter.Missed?
  }

  function Happen(d: Dirty, e: Event): Dirty
    requires Possible(d, e)
  {
    match e
    case Mark => if d.pending then d else d.(pending := true, raised := d.raised + 1)
    case Notify =>
      if d.waiter.Asleep? then d.(raised := d.raised - 1, waiter := Checking)
      else d.(raised := d.raised - 1, permit := true)
    case Check => if d.pending then d.(pending := false, waiter := Served) else d.(waiter := Missed)
    case Await => if d.permit then d.(permit := false, waiter := Checking) else d.(waiter := Asleep)
    case Serve => d.(waiter := Checking)
    case Abandon => d.(waiter := Checking)
  }

  predicate DirtyInv(d: Dirty) {
    && (d.waiter.Asleep? ==> !d.permit)
    && (d.pending && (d.waiter.Missed? || d.waiter.Asleep?) ==> d.raised > 0 || d.permit)
  }

  predicate DirtyLegal(d: Dirty, events: seq<Event>)
    decreases |events|
  {
    events == [] || (Possible(d, events[0]) && DirtyLegal(Happen(d, events[0]), events[1..]))
  }

  function DirtyReach(d: Dirty, events: seq<Event>): Dirty
    requires DirtyLegal(d, events)
    decreases |events|
  {
    if events == [] then d else DirtyReach(Happen(d, events[0]), events[1..])
  }

  lemma {:induction false} DirtyReachInv(d: Dirty, events: seq<Event>)
    requires DirtyInv(d) && DirtyLegal(d, events)
    ensures DirtyInv(DirtyReach(d, events))
    decreases |events|
  {
    if events != [] {
      DirtyReachInv(Happen(d, events[0]), events[1..]);
    }
  }

  const QUIET: Dirty := Dirty(false, 0, false, Checking)

  /** Some mark has not been looked at since. */
  predicate Unseen(events: seq<Event>) {
    exists k :: 0 <= k < |events| && events[k].Mark? && Event.Check !in events[k + 1..]
  }

  lemma UnseenSnoc(front: seq<Event>, e: Event)
    ensures Unseen(front + [e]) <==> e.Mark? || (Unseen(front) && !e.Check?)
  {
    var events := front + [e];
    assert events[|front| + 1..] == [];
    forall k | 0 <= k < |front| ensures events[k + 1..] == front[k + 1..] + [e] && events[k] == front[k] {}
    if e.Mark? { assert events[|front|].Mark?; }
    if Unseen(front) && !e.Check? {
      var k :| 0 <= k < |front| && front[k].Mark? && Event.Check !in front[k + 1..];
      assert events[k].Mark? && Event.Check !in events[k + 1..];
    }
    if Unseen(events) && !e.Mark? {
      var k :| 0 <= k < |events| && events[k].Mark? && Event.Check !in events[k + 1..];
      assert front[k].Mark? && e in events[k + 1..];
    }
  }

  lemma {:induction false} DirtySnoc(d: Dirty, front: seq<Event>, e: Event)
    requires DirtyLegal(d, front + [e])
    ensures DirtyLegal(d, front) && Possible(DirtyReach(d, front), e)
    ensures DirtyReach(d, front + [e]) == Happen(DirtyReach(d, front), e)
    decreases |front|
  {
    hide Possible, Happen;
    if front == [] {
      assert (front + [e])[1..] == [] && front + [e] == [e];
    } else {
      assert (front + [e])[1..] == front[1..] + [e] && (front + [e])[0] == front[0];
      DirtySnoc(Happen(d, front[0]), front[1..], e);
    }
  }

  /** In every run the flag is up exactly when some mark has not been looked at, and the waiter is
      served exactly when it has just looked and found such a mark. */
  lemma {:induction false} FlagIsUnseenMark(events: seq<Event>)
    requires DirtyLegal(QUIET, events)
    ensures var d := DirtyReach(QUIET, events);
            && DirtyInv(d) && (d.pending <==> Unseen(events))
            && (events != [] && events[|events| - 1].Check? ==>
                  (d.waiter.Served? <==> Unseen(events[..|events| - 1])))
    decreases |events|
  {
    hide Unseen;
    DirtyReachInv(QUIET, events);
    if events == [] {
      NothingUnseen();
    } else {
      var front, e := events[..|events| - 1], events[|events| - 1];
      assert front + [e] == events;
      DirtySnoc(QUIET, front, e);
      FlagIsUnseenMark(front);
      UnseenSnoc(front, e);
      hide DirtyLegal, DirtyReach;
    }
  }

  lemma NothingUnseen()
    ensures !Unseen([])
  {
  }

  /** A waiter asleep has seen every mark, unless a notification is on its way; that can always be
      delivered, wakes it, and then it finds the mark. */
  lemma DirtyFlagIsSeen(events: seq<Event>)
    requires DirtyLegal(QUIET, events)
    ensures var d := DirtyReach(QUIET, events);
            && (d.waiter.Asleep? && Unseen(events) ==>
                  Possible(d, Notify) &&
                  var woken := Happen(d, Notify);
                  && woken.raised == d.raised - 1 && Possible(woken, Check)
                  && Happen(woken, Check).waiter.Served? && !Happen(woken, Check).pending)
            && (d.waiter.Missed? && Unseen(events) && d.raised == 0 ==>
                  Possible(d, Await) && Happen(d, Await).waiter.Checking? && !Happen(d, Await).permit)
  {
    FlagIsUnseenMark(events);
    hide DirtyLegal, DirtyReach, Unseen;
  }

  /** Nothing holds up a mark, and whatever the waiter is doing it can go on or give up. */
  lemma NobodyIsStuck(d: Dirty)
    ensures Possible(d, Mark) && Happen(d, Mark).pending && d.raised <= Happen(d, Mark).raised <= d.raised + 1
    ensures Possible(d, Check) || Possible(d, Await) || Possible(d, Serve) || Possible(d, Abandon)
    ensures d.waiter.Missed? || d.waiter.Asleep? ==> Possible(d, Abandon) && Happen(d, Abandon).waiter.Checking?
    ensures Possible(d, Notify) <==> d.raised >= 1
    ensures Possible(d, Notify) ==> Happen(d, Notify).raised == d.raised - 1
  {
  }
}
