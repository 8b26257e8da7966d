/** Starting to capture an exchange: a permit, the memory for the request's metadata, and a place
    in the queue to the store are all needed, and a refusal gives back what was taken. */
module Publisher {
  import opened Basics
  import opened BodyCharge
  import opened Bodies
  import opened ChangeFeed
  import opened HeaderCapture
  import opened Records

  class CapturePublisher {
    const layout: Layout
    const budget: MemoryBudget
    const feed: Feed
    const targetLimit: nat
    const headerLimit: nat
    var permits: nat
    var queueRoom: nat
    var nextSequence: nat

    constructor (layout: Layout, budget: MemoryBudget, feed: Feed, targetLimit: nat, headerLimit: nat,
                 permits: nat, queueRoom: nat)
      ensures this.layout == layout && this.budget == budget && this.feed == feed
      ensures this.targetLimit == targetLimit && this.headerLimit == headerLimit
      ensures this.permits == permits && this.queueRoom == queueRoom && nextSequence == 0
    {
      this.layout, this.budget, this.feed, this.targetLimit, this.headerLimit :=
        layout, budget, feed, targetLimit, headerLimit;
      this.permits, this.queueRoom, nextSequence := permits, queueRoom, 0;
    }

    /** `try_start`: admitted exactly when there is a permit, room in the budget for all of the
        captured request metadata, and room in the queue. What was measured before capturing is
        what is charged, and what the new record holds. A sequence number is used up as soon as
        there is memory, even if the queue then has no room. */
    method TryStart(input: RequestInput) returns (record: Option<CaptureRecord>)
      requires budget.Valid() && InputValid(input)
      modifies this`permits, this`queueRoom, this`nextSequence, budget
      ensures budget.Valid()
      ensures var request := RequestOf(input, targetLimit, headerLimit);
              && (record.Some? <==>
                    old(permits) > 0 && RequestBytes(request) <= old(budget.Room()) && old(queueRoom) > 0)
              && (record.Some? ==>
                    && var c := record.value;
                    && fresh(c) && fresh(c.lease) && c.lease.budget == budget && c.feed == feed && !c.feedBound
                    && c.sequence == old(nextSequence) && c.request == request
                    && c.Valid() && c.lease.Valid() && c.Accounted()
                    && c.requestBody.View() == FRESH && c.responseBody.View() == FRESH
                    && c.retainedBytes == 256 + |request.originalUri| + |request.effectiveUri|
                         + (if request.localPath.Some? then |request.localPath.value| else 0)
                         + HeadersBytes(request.headers)
                    && budget.used == old(budget.used) + RequestBytes(request)
                    && permits == old(permits) - 1 && queueRoom == old(queueRoom) - 1)
      ensures record.None? ==>
                budget.used == old(budget.used) && permits == old(permits) && queueRoom == old(queueRoom)
      ensures nextSequence == old(nextSequence) +
                if old(permits) > 0 && RequestBytes(RequestOf(input, targetLimit, headerLimit)) <= old(budget.Room())
                then 1 else 0
    {
      hide Captured, HeadersBytes, Flatten, Count, InputValid;
      if permits == 0 { return None; }
      permits := permits - 1;
      var bytes, _, _ := MeasureRequest(input, targetLimit, headerLimit);
      var admitted := budget.ReserveExact(bytes);
      if !admitted {
        permits := permits + 1;
        return None;
      }
      var lease := new BudgetLease(budget, bytes);
      var request := CaptureRequest(input, targetLimit, headerLimit);
      var c := new CaptureRecord(nextSequence, layout, request, lease, feed);
      nextSequence := nextSequence + 1;
      if queueRoom == 0 {
        lease.Drop();
        permits := permits + 1;
        return None;
      }
      queueRoom := queueRoom - 1;
      return Some(c);
    }
  }
}
