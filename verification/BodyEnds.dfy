/** How a body's status tells its story: whether it has begun, whether it has ended, which end it
    was that counted, and which limit its preview ran into. */
module BodyEnds {
  import opened Basics
  import opened Utf8
  import opened BodyCharge
  import opened Bodies
  import opened BodyLaws

  /** A response set at step `k` that its record, not yet removed, accepts. */
  predicate Reopens(steps: seq<Step>, k: int) {
    0 <= k < |steps| && steps[k].Reopened? && Step.Disable !in steps[..k]
  }

  /** `from` is where the body was opened last: at its birth, or right behind the last reopening. */
  predicate OpenedAt(steps: seq<Step>, from: int) {
    && 0 <= from <= |steps| && (from == 0 || Reopens(steps, from - 1))
    && forall j :: from <= j < |steps| ==> !Reopens(steps, j)
  }

  /** The first end after that is at step `k`. */
  predicate EndsAt(steps: seq<Step>, from: int, k: int) {
    0 <= from <= k < |steps| && steps[k].Ended? && forall j :: from <= j < k ==> !steps[j].Ended?
  }

  /** No end after that. */
  predicate GoesOn(steps: seq<Step>, from: int)
    requires 0 <= from
  {
    forall j :: from <= j < |steps| ==> !steps[j].Ended?
  }

  /** Something has been seen of the body, or its response has been set. */
  predicate Begun(steps: seq<Step>) {
    exists k :: 0 <= k < |steps| && ((steps[k].Bytes? && steps[k].bytes != []) || Reopens(steps, k))
  }

  lemma {:induction false} FinalSnoc(l: Layout, perBody: nat, s: Life, front: seq<Step>, x: Step)
    requires |s.body.trailing| < l.chunk
    ensures |Final(l, perBody, s, front).body.trailing| < l.chunk
    ensures Final(l, perBody, s, front + [x]) == After(l, perBody, Final(l, perBody, s, front), x)
    decreases |front|
  {
    hide After;
    StaysBounded(l, perBody, s, (front + [x])[0]);
    if front == [] {
      assert (front + [x])[1..] == [];
    } else {
      assert (front + [x])[1..] == front[1..] + [x];
      FinalSnoc(l, perBody, After(l, perBody, s, front[0]), front[1..], x);
    }
  }

  /** What one step does to the status; `open` is that it had not ended before. */
  lemma StatusAfter(l: Layout, perBody: nat, s: Life, x: Step)
    requires |s.body.trailing| < l.chunk
    ensures var was, now := s.body.status, After(l, perBody, s, x).body.status;
            && After(l, perBody, s, x).disabled == (s.disabled || x.Disable?)
            && (x.Ended? && !was.stream.Terminal() ==> Says(now, x.t) && (!x.t.Fails? ==> now.error == was.error))
            && (x.Ended? && was.stream.Terminal() ==> now == was)
            && (x.Reopened? && !s.disabled ==> now.stream == Streaming && now.error == was.error)
            && (x.Reopened? && s.disabled ==> now == was)
            && (x.Disable? ==> now == was)
            && (x.Bytes? ==> now.error == was.error)
            && (x.Bytes? && (was.stream.Terminal() || x.bytes == []) ==> now == was)
            && (x.Bytes? && !was.stream.Terminal() && x.bytes != [] ==> now.stream == Streaming)
  {
    hide Best, Cost;
    if x.Bytes? && !Ignored(s.body, x.bytes) && !s.disabled {
      AppendTrailing(l, s.body, x.bytes, perBody, x.available);
      GrowStatus(l, s.body, x.bytes[..0], s.body.status);
    }
  }

  /** The status names the end that counted. */
  ghost predicate Told(steps: seq<Step>, from: int, s: Status)
    requires 0 <= from
  {
    && (GoesOn(steps, from) <==> !s.stream.Terminal())
    && (forall k :: EndsAt(steps, from, k) ==> Says(s, steps[k].t))
    && (from == 0 ==> (s.error.Some? <==> s.stream == Failed))
  }

  lemma ReopensSnoc(front: seq<Step>, x: Step)
    ensures forall j :: 0 <= j < |front| ==> (Reopens(front + [x], j) <==> Reopens(front, j))
    ensures Reopens(front + [x], |front|) <==> x.Reopened? && Step.Disable !in front
  {
    var steps := front + [x];
    forall j | 0 <= j <= |front| ensures steps[..j] == front[..j] {}
    assert front[..|front|] == front;
  }

  lemma StepOn(front: seq<Step>, x: Step, from: int, was: Status, now: Status) returns (next: int)
    requires OpenedAt(front, from) && Told(front, from, was)
    requires x.Ended? && !was.stream.Terminal() ==> Says(now, x.t) && (!x.t.Fails? ==> now.error == was.error)
    requires x.Reopened? && Step.Disable !in front ==> now.stream == Streaming
    requires x.Bytes? && !was.stream.Terminal() ==> !now.stream.Terminal() && now.error == was.error
    requires was.stream.Terminal() && (x.Ended? || x.Bytes?) ==> now == was
    requires (x.Reopened? && Step.Disable in front) || x.Disable? ==> now == was
    ensures OpenedAt(front + [x], next) && Told(front + [x], next, now)
  {
    var steps := front + [x];
    ReopensSnoc(front, x);
    assert forall j {:trigger front[j]} {:trigger steps[j]} :: 0 <= j < |front| ==> front[j] == steps[j];
    if x.Reopened? && Step.Disable !in front {
      next := |steps|;
    } else {
      next := from;
      assert from == 0 || Reopens(steps, from - 1);
      if GoesOn(front, from) && x.Ended? { assert EndsAt(steps, from, |front|); }
      forall k | EndsAt(steps, from, k) ensures Says(now, steps[k].t) {
        if k < |front| { assert EndsAt(front, from, k); }
      }
    }
  }

  lemma BegunSnoc(front: seq<Step>, x: Step)
    ensures Begun(front + [x]) <==>
              Begun(front) || (x.Bytes? && x.bytes != []) || (x.Reopened? && Step.Disable !in front)
  {
    var steps := front + [x];
    ReopensSnoc(front, x);
    if Begun(front) {
      var k :| 0 <= k < |front| && ((front[k].Bytes? && front[k].bytes != []) || Reopens(front, k));
      assert steps[k] == front[k];
    }
    if (x.Bytes? && x.bytes != []) || (x.Reopened? && Step.Disable !in front) { assert steps[|front|] == x; }
  }

  lemma {:induction false} Story(l: Layout, perBody: nat, steps: seq<Step>) returns (from: int)
    ensures var s := Final(l, perBody, BORN, steps);
            && OpenedAt(steps, from) && Told(steps, from, s.body.status)
            && (s.disabled <==> Step.Disable in steps)
            && (s.body.status.stream == Pending <==> !Begun(steps) && GoesOn(steps, 0))
    decreases |steps|
  {
    if steps == [] {
      return 0;
    }
    var front, x := steps[..|steps| - 1], steps[|steps| - 1];
    assert steps == front + [x];
    from := Story(l, perBody, front);
    FinalSnoc(l, perBody, BORN, front, x);
    var s := Final(l, perBody, BORN, front);
    StatusAfter(l, perBody, s, x);
    BegunSnoc(front, x);
    hide After, Final, Says, Begun;
    from := StepOn(front, x, from, s.body.status, After(l, perBody, s, x).body.status);
  }

  lemma OpenedOnce(steps: seq<Step>, a: int, b: int)
    requires OpenedAt(steps, a) && OpenedAt(steps, b)
    ensures a == b
  {
  }

  /** At every moment of every life the status follows from where the body was opened last. It has
      ended exactly if it was told to since; then it is complete, failed or cancelled as the first
      such end said, and a failure keeps its error. Unless its response was set, it has an error
      only if it failed; and it is pending exactly before anything happened to it. */
  lemma EndIsNamed(l: Layout, perBody: nat, steps: seq<Step>, from: int)
    requires OpenedAt(steps, from)
    ensures var s := Final(l, perBody, BORN, steps).body.status;
            && (s.stream.Terminal() <==> !GoesOn(steps, from))
            && (forall k :: EndsAt(steps, from, k) ==> Says(s, steps[k].t))
            && (from == 0 ==> (s.error.Some? <==> s.stream == Failed))
            && (s.stream == Pending <==> !Begun(steps) && GoesOn(steps, 0))
  {
    hide Final, Says, Begun, Reopens;
    var there := Story(l, perBody, steps);
    OpenedOnce(steps, there, from);
  }

  /** Which limit a preview runs into: the shared budget's if the bytes its own limit admits do
      not fit in the budget with the nodes they complete, its own if they do and it admits only
      some; none if all are kept. A limit once met stays. */
  lemma LimitNamesCause(l: Layout, b: Body, bytes: seq<byte>, perBody: nat, available: nat)
    requires |b.trailing| < l.chunk && !Ignored(b, bytes)
    ensures var now := Append(l, b, bytes, perBody, available, false).0.status;
            if b.status.limit.Some? then now.limit == b.status.limit && now.retained == b.status.retained
            else
              var admitted := Min(|bytes|, Minus(perBody, b.status.retained));
              var fits := Cost(l, |b.trailing|, admitted) <= available;
              && (now.limit == Some(TotalMemoryLimit) <==> !fits)
              && (now.limit == Some(PerBodyLimit) <==> fits && admitted < |bytes|)
              && (now.limit == None <==> fits && admitted == |bytes|)
              && (fits ==> now.retained == b.status.retained + admitted)
  {
    hide Cost, Best, Append;
    AppendTrailing(l, b, bytes, perBody, available);
    BestFits(l, |b.trailing|, Requested(b, bytes, perBody), available);
    NothingFits(l, |b.trailing|);
    var wanted := Requested(b, bytes, perBody);
    assert Fits(l, |b.trailing|, wanted, wanted, available) <==> Cost(l, |b.trailing|, wanted) <= available;
  }
}
