/** The bounded change feed. A ring of the last `capacity` changes stands for an infinite log: a
    subscriber reads the log in order, and is told exactly when its place has left the ring. */
module ChangeFeed {
  import opened Basics

  datatype Kind = Admitted | RecordUpdated | RetentionEviction | ExplicitDelete | Cleared {
    predicate Removal() { RetentionEviction? || ExplicitDelete? || Cleared? }
  }

  datatype Change = Change(epoch: nat, sequence: nat, revision: nat, kind: Kind)

  datatype Read = Got(change: Change) | CaughtUp | Gap(expected: nat, oldest: nat)

  /** Epochs count the published changes from one. */
  ghost predicate Numbered(log: seq<Change>) {
    forall i :: 0 <= i < |log| ==> log[i].epoch == i + 1
  }

  /** The ring: the newest changes of the log. */
  function Newest(log: seq<Change>, capacity: nat): seq<Change> { log[|log| - Min(|log|, capacity)..] }

  /** What a read at `next` means on the infinite log. */
  function LogRead(log: seq<Change>, capacity: nat, next: nat): Read
    requires next > 0
  {
    if next > |log| then CaughtUp
    else if next + capacity <= |log| then Gap(next, |log| - capacity + 1)
    else Got(log[next - 1])
  }

  class Feed {
    const capacity: nat
    var epoch: nat
    var retained: seq<Change>
    ghost var log: seq<Change>

    ghost predicate Valid()
      reads this
    {
      && capacity > 0
      && Numbered(log)
      && epoch == |log|
      && retained == Newest(log, capacity)
    }

    constructor (capacity: nat)
      requires capacity > 0
      ensures Valid() && log == [] && this.capacity == capacity
    {
      this.capacity := capacity;
      epoch, retained, log := 0, [], [];
    }

    method Publish(sequence: nat, revision: nat, kind: Kind) returns (change: Change)
      requires Valid()
      modifies this
      ensures Valid() && log == old(log) + [change]
      ensures change == Change(|old(log)| + 1, sequence, revision, kind)
    {
      epoch := epoch + 1;
      change := Change(epoch, sequence, revision, kind);
      if |retained| == capacity {
        retained := retained[1..];
      }
      retained := retained + [change];
      log := log + [change];
    }
  }

  class Subscription {
    const feed: Feed
    var nextEpoch: nat

    /** `subscribe`: everything published from now on. */
    constructor (feed: Feed)
      requires feed.Valid()
      ensures this.feed == feed && nextEpoch == |feed.log| + 1
    {
      this.feed := feed;
      nextEpoch := feed.epoch + 1;
    }

    method TryRead() returns (r: Read)
      requires feed.Valid() && nextEpoch > 0
      modifies this
      ensures r == LogRead(feed.log, feed.capacity, old(nextEpoch))
      ensures nextEpoch == if r.Got? then old(nextEpoch) + 1 else old(nextEpoch)
    {
      if |feed.retained| == 0 { return CaughtUp; }
      var oldest := feed.retained[0];
      assert oldest.epoch == |feed.log| - |feed.retained| + 1;
      if nextEpoch < oldest.epoch { return Gap(nextEpoch, oldest.epoch); }
      if nextEpoch > feed.epoch { return CaughtUp; }
      var offset := nextEpoch - oldest.epoch;
      if offset >= |feed.retained| { return CaughtUp; }
      var change := feed.retained[offset];
      nextEpoch := change.epoch + 1;
      return Got(change);
    }
  }

  /** A read gets the change of its epoch as long as fewer than `capacity` came after it, a gap with
      the oldest epoch still there as soon as that many did, and nothing while the change is still
      to come. */
  lemma ReadExactly(log: seq<Change>, capacity: nat, next: nat)
    requires capacity > 0 && next > 0 && Numbered(log)
    ensures var r := LogRead(log, capacity, next);
            && (r.Got? <==> next <= |log| && |log| - next < capacity)
            && (r.Got? ==> r.change in log && r.change.epoch == next)
            && (r.Gap? <==> |log| - next >= capacity)
            && (r.Gap? ==> r.expected == next && r.oldest == log[|log| - capacity].epoch)
            && (r.CaughtUp? <==> next > |log|)
  {
  }

  // ---------------------------------------------------------------------------------------
  // Runs of one subscriber against any number of publishers

  datatype Action = Publishes(sequence: nat, revision: nat, kind: Kind) | Reads

  datatype Session = Session(log: seq<Change>, next: nat, results: seq<Read>)

  function Do(capacity: nat, s: Session, a: Action): Session
    requires s.next > 0
  {
    match a
    case Publishes(q, r, k) => s.(log := s.log + [Change(|s.log| + 1, q, r, k)])
    case Reads =>
      var result := LogRead(s.log, capacity, s.next);
      Session(s.log, if result.Got? then s.next + 1 else s.next, s.results + [result])
  }

  function Play(capacity: nat, s: Session, actions: seq<Action>): Session
    requires s.next > 0
    decreases |actions|
  {
    if actions == [] then s else Play(capacity, Do(capacity, s, actions[0]), actions[1..])
  }

  /** The changes a list of read results delivered, in order. */
  function Delivered(results: seq<Read>): seq<Change> {
    if results == [] then []
    else Delivered(results[..|results| - 1]) +
         (if results[|results| - 1].Got? then [results[|results| - 1].change] else [])
  }

  /** From `first` on, the reads delivered the log without hole, repetition or reordering. */
  ghost predicate InOrder(first: nat, s: Session) {
    && 0 < first <= s.next <= |s.log| + 1
    && Delivered(s.results) == s.log[first - 1..s.next - 1]
  }

  /** Once a read found a gap, so did every later one. */
  ghost predicate GapsPersist(s: Session) {
    forall i, j :: 0 <= i < j < |s.results| && s.results[i].Gap? ==> s.results[j].Gap?
  }

  ghost predicate Consistent(capacity: nat, first: nat, s: Session) {
    && InOrder(first, s) && GapsPersist(s) && Numbered(s.log)
    && ((exists i :: 0 <= i < |s.results| && s.results[i].Gap?) ==> s.next + capacity <= |s.log|)
  }

  lemma ConsistentStep(capacity: nat, first: nat, s: Session, a: Action)
    requires Consistent(capacity, first, s)
    ensures Consistent(capacity, first, Do(capacity, s, a))
  {
    var t := Do(capacity, s, a);
    if a.Reads? {
      var result := LogRead(s.log, capacity, s.next);
      assert t.results[..|t.results| - 1] == s.results;
      if result.Got? {
        assert s.log[first - 1..s.next] == s.log[first - 1..s.next - 1] + [s.log[s.next - 1]];
      }
      if exists i :: 0 <= i < |t.results| && t.results[i].Gap? {
        if exists i :: 0 <= i < |s.results| && s.results[i].Gap? {
        } else {
          assert t.results[|s.results|].Gap?;
        }
      }
    } else {
      assert t.log[first - 1..s.next - 1] == s.log[first - 1..s.next - 1];
    }
  }

  lemma {:induction false} PlayConsistent(capacity: nat, first: nat, s: Session, actions: seq<Action>)
    requires Consistent(capacity, first, s)
    ensures Consistent(capacity, first, Play(capacity, s, actions))
    decreases |actions|
  {
    if actions != [] {
      ConsistentStep(capacity, first, s, actions[0]);
      PlayConsistent(capacity, first, Do(capacity, s, actions[0]), actions[1..]);
    }
  }

  /** The ring refines the log: a subscriber that joins at any moment gets exactly the later
      changes, each once and in order, however publishers and reads interleave; and the
      first gap is final. */
  lemma SubscriberSeesTheLog(capacity: nat, log: seq<Change>, actions: seq<Action>)
    requires capacity > 0 && Numbered(log)
    ensures var s := Play(capacity, Session(log, |log| + 1, []), actions);
            && InOrder(|log| + 1, s) && GapsPersist(s)
            && log <= s.log
            && (LogRead(s.log, capacity, s.next).CaughtUp? <==> Delivered(s.results) == s.log[|log|..])
  {
    var s0 := Session(log, |log| + 1, []);
    var s := Play(capacity, s0, actions);
    assert log[|log|..|log|] == [];
    PlayConsistent(capacity, |log| + 1, s0, actions);
    LogOnlyGrows(capacity, s0, actions);
    assert |s.log[|log|..s.next - 1]| == s.next - 1 - |log|;
    if s.next == |s.log| + 1 {
      assert s.log[|log|..s.next - 1] == s.log[|log|..];
    }
  }

  lemma {:induction false} LogOnlyGrows(capacity: nat, s: Session, actions: seq<Action>)
    requires s.next > 0
    ensures s.log <= Play(capacity, s, actions).log
    decreases |actions|
  {
    if actions != [] {
      LogOnlyGrows(capacity, Do(capacity, s, actions[0]), actions[1..]);
    }
  }
}
