/** A capture record as its handles and the store see it: two bodies, the response metadata, a
    revision, and the bytes it answers for in its budget lease. Each method is one critical
    section of the record lock. */
module Records {
  import opened Basics
  import opened Utf8
  import opened BodyCharge
  import opened Bodies
  import opened ChangeFeed
  import opened HeaderCapture

  // ---------------------------------------------------------------------------------------
  // Budget and lease, one caller at a time (BudgetRaces has the interleavings)

  class MemoryBudget {
    const limit: nat
    var used: nat

    ghost predicate Valid()
      reads this
    {
      used <= limit
    }

    function Room(): nat
      requires Valid()
      reads this
    {
      limit - used
    }

    constructor (limit: nat)
      ensures Valid() && used == 0 && this.limit == limit
    {
      this.limit := limit;
      used := 0;
    }

    /** All or nothing. */
    method ReserveExact(requested: nat) returns (ok: bool)
      requires Valid()
      modifies this
      ensures Valid() && (ok <==> requested <= old(Room()))
      ensures used == if ok then old(used) + requested else old(used)
    {
      if requested == 0 { return true; }
      var updated := used + requested;
      if updated > limit { return false; }
      used := updated;
      return true;
    }

    method ReserveUpTo(requested: nat) returns (reserved: nat)
      requires Valid()
      modifies this
      ensures Valid() && reserved == Min(requested, old(Room())) && used == old(used) + reserved
    {
      reserved := Min(requested, limit - used);
      if reserved == 0 { return; }
      used := used + reserved;
    }

    method ReserveBodyPrefix(layout: Layout, requested: nat, trailing: nat) returns (retained: nat, charged: nat)
      requires Valid() && trailing < layout.chunk
      modifies this
      ensures Valid() && retained == Best(layout, trailing, requested, old(Room()))
      ensures charged == Cost(layout, trailing, retained) && used == old(used) + charged
    {
      NothingFits(layout, trailing);
      BestFits(layout, trailing, requested, Room());
      if requested == 0 { return 0, 0; }
      retained, charged := BodyPrefixCharge(layout, requested, trailing, limit - used);
      if retained == 0 { return 0, 0; }
      used := used + charged;
    }

    method Release(released: nat)
      requires Valid() && released <= used
      modifies this
      ensures Valid() && used == old(used) - released
    {
      used := used - released;
    }
  }

  class BudgetLease {
    const budget: MemoryBudget
    var reserved: nat

    ghost predicate Valid()
      reads this, budget
    {
      budget.Valid() && reserved <= budget.used
    }

    constructor (budget: MemoryBudget, reserved: nat)
      requires budget.Valid() && reserved <= budget.used
      ensures Valid() && this.budget == budget && this.reserved == reserved
    {
      this.budget, this.reserved := budget, reserved;
    }

    /** Dropping the last holder gives everything back. */
    method Drop()
      requires Valid()
      modifies this, budget
      ensures Valid() && reserved == 0 && budget.used == old(budget.used) - old(reserved)
    {
      budget.Release(reserved);
      reserved := 0;
    }

    method ReserveUpTo(requested: nat) returns (n: nat)
      requires Valid()
      modifies this, budget
      ensures Valid() && n == Min(requested, old(budget.Room()))
      ensures reserved == old(reserved) + n && budget.used == old(budget.used) + n
    {
      n := budget.ReserveUpTo(requested);
      reserved := reserved + n;
    }

    method ReserveBodyPrefix(layout: Layout, requested: nat, trailing: nat) returns (retained: nat, charged: nat)
      requires Valid() && trailing < layout.chunk
      modifies this, budget
      ensures Valid() && retained == Best(layout, trailing, requested, old(budget.Room()))
      ensures charged == Cost(layout, trailing, retained)
      ensures reserved == old(reserved) + charged && budget.used == old(budget.used) + charged
    {
      retained, charged := budget.ReserveBodyPrefix(layout, requested, trailing);
      reserved := reserved + charged;
    }

    method Release(released: nat)
      requires Valid() && released <= reserved
      modifies this, budget
      ensures Valid() && reserved == old(reserved) - released && budget.used == old(budget.used) - released
    {
      if released == 0 { return; }
      reserved := reserved - released;
      budget.Release(released);
    }
  }

  // ---------------------------------------------------------------------------------------
  // The record

  datatype ResponseMeta = ResponseMeta(status: nat, headers: seq<Header>)

  datatype AppendResult = AppendResult(changed: bool, perBodyLimited: bool, memoryLimited: bool)

  /** What an append reports: whether anything was recorded, and a limit only when it is new. */
  function Report(b: Body, after: Body, bytes: seq<byte>, disabled: bool): AppendResult {
    if Ignored(b, bytes) || disabled then AppendResult(false, false, false)
    else
      var open := b.status.limit.None?;
      AppendResult(true, open && after.status.limit == Some(PerBodyLimit),
                   open && after.status.limit == Some(TotalMemoryLimit))
  }

  class CaptureRecord {
    const sequence: nat
    const layout: Layout
    const request: Request
    const lease: BudgetLease
    const feed: Feed
    const requestBody: BodyCapture
    const responseBody: BodyCapture
    var response: Option<ResponseMeta>
    var responseStarted: bool
    var responseHeadersTruncated: bool
    var captureDisabled: bool
    var feedBound: bool
    var revision: nat
    var retainedBytes: nat

    ghost predicate Valid()
      reads this, requestBody, responseBody
    {
      && requestBody != responseBody
      && requestBody.layout == layout && responseBody.layout == layout
      && requestBody.Valid() && responseBody.Valid()
      && (!responseStarted ==> response.None?)
    }

    function BodyOf(side: Side): BodyCapture { if side.RequestSide? then requestBody else responseBody }

    /** Bytes and chunk nodes a body answers for. */
    function BodyCost(b: BodyCapture): nat
      reads b
    {
      b.status.retained + layout.overhead * Count(b.tail)
    }

    function ResponseCost(): nat
      reads this
    {
      if response.Some? then ResponseBytes(response.value.headers) else 0
    }

    /** Exact accounting: what the record reports is what its lease holds, and is the sum of its
        request metadata, its response metadata, both bodies and their chunk nodes. */
    ghost predicate Accounted()
      reads this, lease, requestBody, responseBody
    {
      && retainedBytes == lease.reserved
      && retainedBytes == RequestBytes(request) + ResponseCost() + BodyCost(requestBody) + BodyCost(responseBody)
    }

    /** A record is created right after its lease reserved exactly its request metadata. */
    constructor (sequence: nat, layout: Layout, request: Request, lease: BudgetLease, feed: Feed)
      requires lease.reserved == RequestBytes(request)
      ensures Valid() && Accounted() && fresh(requestBody) && fresh(responseBody)
      ensures this.sequence == sequence && this.layout == layout && this.request == request
      ensures this.lease == lease && this.feed == feed
      ensures requestBody.View() == FRESH && responseBody.View() == FRESH
      ensures !responseStarted && response == None && !responseHeadersTruncated
      ensures !captureDisabled && !feedBound && revision == 0
    {
      this.sequence, this.layout, this.request, this.lease, this.feed := sequence, layout, request, lease, feed;
      requestBody := new BodyCapture(layout);
      responseBody := new BodyCapture(layout);
      response, responseStarted, responseHeadersTruncated := None, false, false;
      captureDisabled, feedBound, revision, retainedBytes := false, false, 0, RequestBytes(request);
    }

    /** Every change of a record raises its revision by one and, once it is in the store, is
        published with that revision, under the same lock. */
    method Bump()
      requires feed.Valid()
      modifies this`revision, feed
      ensures feed.Valid() && revision == old(revision) + 1
      ensures feed.log == old(feed.log) +
                (if feedBound then [Change(|old(feed.log)| + 1, sequence, revision, RecordUpdated)] else [])
    {
      revision := revision + 1;
      if feedBound {
        var _ := feed.Publish(sequence, revision, RecordUpdated);
      }
    }

    method BindChangeFeed()
      requires feed.Valid()
      modifies this`feedBound, feed
      ensures feed.Valid() && feedBound
      ensures feed.log == old(feed.log) +
                (if old(feedBound) then [] else [Change(|old(feed.log)| + 1, sequence, revision, Admitted)])
    {
      if feedBound { return; }
      var _ := feed.Publish(sequence, revision, Admitted);
      feedBound := true;
    }

    method RemoveFromStore(kind: Kind)
      requires feed.Valid() && kind.Removal()
      modifies this`captureDisabled, this`feedBound, feed
      ensures feed.Valid() && captureDisabled && !feedBound
      ensures feed.log == old(feed.log) +
                (if old(feedBound) then [Change(|old(feed.log)| + 1, sequence, revision, kind)] else [])
    {
      captureDisabled := true;
      if feedBound {
        var _ := feed.Publish(sequence, revision, kind);
        feedBound := false;
      }
    }

    /** `set_response_at`: accepted once, and never after removal. */
    method SetResponseAt(meta: Option<ResponseMeta>, truncated: bool, reserved: nat) returns (accepted: bool)
      requires Valid() && feed.Valid()
      modifies this`response, this`responseStarted, this`responseHeadersTruncated,
               this`retainedBytes, this`revision, responseBody`status, feed
      ensures Valid() && feed.Valid() && accepted == !(old(captureDisabled) || old(responseStarted))
      ensures !accepted ==> unchanged(this) && unchanged(responseBody) && feed.log == old(feed.log)
      ensures accepted ==>
                && responseStarted && response == meta && retainedBytes == old(retainedBytes) + reserved
                && responseHeadersTruncated == (old(responseHeadersTruncated) || truncated)
                && responseBody.View() == Reopen(old(responseBody.View()))
                && responseBody.tail == old(responseBody.tail)
                && revision == old(revision) + 1
                && feed.log == old(feed.log) +
                     (if feedBound then [Change(|old(feed.log)| + 1, sequence, revision, RecordUpdated)] else [])
    {
      if captureDisabled || responseStarted { return false; }
      responseStarted := true;
      response := meta;
      responseHeadersTruncated := responseHeadersTruncated || truncated;
      responseBody.status := responseBody.status.(stream := Streaming);
      retainedBytes := retainedBytes + reserved;
      Bump();
      return true;
    }

    /** `append_body`: the body changes as `Bodies.Append` says for the room the budget had, the
        other body does not, and record, lease and budget all move by the same charge. */
    method AppendBody(side: Side, bytes: seq<byte>, perBody: nat) returns (r: AppendResult)
      requires Valid() && lease.Valid() && feed.Valid()
      modifies this`revision, this`retainedBytes, BodyOf(side), lease, lease.budget, feed
      ensures Valid() && lease.Valid() && feed.Valid()
      ensures BodyOf(side).View()
           == Append(layout, old(BodyOf(side).View()), bytes, perBody, old(lease.budget.Room()), captureDisabled).0
      ensures var room := old(lease.budget.Room());
              var charged := Append(layout, old(BodyOf(side).View()), bytes, perBody, room, captureDisabled).1;
              && retainedBytes == old(retainedBytes) + charged
              && lease.reserved == old(lease.reserved) + charged
              && lease.budget.used == old(lease.budget.used) + charged
              && BodyCost(BodyOf(side)) == old(BodyCost(BodyOf(side))) + charged
      ensures Shares(old(BodyOf(side).tail), BodyOf(side).tail)
      ensures r == Report(old(BodyOf(side).View()), BodyOf(side).View(), bytes, captureDisabled)
      ensures revision == old(revision) + (if r.changed then 1 else 0)
      ensures feed.log == old(feed.log) +
                (if r.changed && feedBound then [Change(|old(feed.log)| + 1, sequence, revision, RecordUpdated)]
                 else [])
      ensures old(Accounted()) ==> Accounted()
    {
      hide Best, Cost, Grow, Flatten;
      var body := BodyOf(side);
      ghost var before, room := body.View(), lease.budget.Room();
      if body.status.stream.Terminal() || bytes == [] {
        return AppendResult(false, false, false);
      }
      body.status := body.status.(stream := Streaming, observed := body.status.observed + |bytes|);
      if captureDisabled {
        return AppendResult(false, false, false);
      }
      assert body.View() == Seen(before, bytes);
      r := Record(body, before, bytes, perBody);
      Bump();
    }

    /** The part of an append that draws on the budget. */
    method Record(body: BodyCapture, ghost before: Body, bytes: seq<byte>, perBody: nat) returns (r: AppendResult)
      requires body.Valid() && body.layout == layout && lease.Valid()
      requires |before.trailing| < layout.chunk && !Ignored(before, bytes) && body.View() == Seen(before, bytes)
      modifies this`retainedBytes, body, lease, lease.budget
      ensures body.Valid() && lease.Valid()
      ensures body.View() == Append(layout, before, bytes, perBody, old(lease.budget.Room()), false).0
      ensures var charged := Append(layout, before, bytes, perBody, old(lease.budget.Room()), false).1;
              && retainedBytes == old(retainedBytes) + charged
              && lease.reserved == old(lease.reserved) + charged
              && lease.budget.used == old(lease.budget.used) + charged
              && BodyCost(body) == old(BodyCost(body)) + charged
      ensures Shares(old(body.tail), body.tail)
      ensures r == Report(before, body.View(), bytes, false)
    {
      hide Best, Cost, Grow, Flatten;
      var existing := body.status.limit;
      var remaining := if perBody >= body.status.retained then perBody - body.status.retained else 0;
      var requested := if existing.Some? then 0 else Min(|bytes|, remaining);
      BestFits(layout, |body.trailing|, requested, lease.budget.Room());
      var kept, charged := lease.ReserveBodyPrefix(layout, requested, |body.trailing|);
      Keep(body, bytes, kept, charged);
      var limit := if existing.Some? then existing
                   else if kept < requested then Some(TotalMemoryLimit)
                   else if requested < |bytes| then Some(PerBodyLimit)
                   else None;
      if limit.Some? {
        body.status := body.status.(limit := limit);
      }
      var newly := if existing.None? then limit else None;
      r := AppendResult(true, newly == Some(PerBodyLimit), newly == Some(TotalMemoryLimit));
    }

    /** Stores a granted prefix and books its charge. */
    method Keep(body: BodyCapture, bytes: seq<byte>, kept: nat, charged: nat)
      requires body.Valid() && body.layout == layout && kept <= |bytes|
      requires charged == Cost(layout, |body.trailing|, kept)
      modifies body, this`retainedBytes
      ensures body.Valid() && retainedBytes == old(retainedBytes) + charged
      ensures body.View() == Grow(layout, old(body.View()), bytes[..kept]).(
                status := old(body.status).(retained := old(body.status.retained) + kept))
      ensures Shares(old(body.tail), body.tail)
      ensures BodyCost(body) == old(BodyCost(body)) + charged
    {
      StepNone(layout, |body.trailing|);
      if kept > 0 {
        ghost var n0, nodes := Count(body.tail), Nodes(layout, |body.trailing|, kept);
        body.AppendBytes(bytes[..kept]);
        body.status := body.status.(retained := body.status.retained + kept);
        retainedBytes := retainedBytes + charged;
        Distribute(n0, nodes, layout.overhead);
      } else {
        assert bytes[..0] == [];
        GrowNothing(layout, body.View());
      }
    }

    /** `finish_body_at`: ends a body once. */
    method FinishBody(side: Side, t: Terminal) returns (changed: bool)
      requires Valid() && feed.Valid()
      modifies this`revision, BodyOf(side), feed
      ensures Valid() && feed.Valid() && changed == !old(BodyOf(side).status.stream.Terminal())
      ensures BodyOf(side).View() == Finish(old(BodyOf(side).View()), t) && BodyOf(side).tail == old(BodyOf(side).tail)
      ensures revision == old(revision) + (if changed then 1 else 0)
      ensures feed.log == old(feed.log) +
                (if changed && feedBound then [Change(|old(feed.log)| + 1, sequence, revision, RecordUpdated)] else [])
      ensures old(Accounted()) ==> Accounted()
    {
      hide Flatten, Count, Chunked, Numbered, Newest;
      var body := BodyOf(side);
      if body.status.stream.Terminal() { return false; }
      match t {
        case Completes => body.status := body.status.(stream := Complete);
        case Fails(e) => body.status := body.status.(stream := Failed, error := Some(e));
        case Cancels => body.status := body.status.(stream := StreamCancelled);
      }
      body.SealTrailing();
      Bump();
      return true;
    }
  }

  // ---------------------------------------------------------------------------------------
  // The handle's response path

  /** `CaptureHandle::set_response_at`: reserves for the measured headers, captures again within
      what was granted, gives the rest back, and settles or returns everything. Between handle
      calls the accounts are exact again. */
  method HandleSetResponse(record: CaptureRecord, status: nat, headers: seq<Header>, headerLimit: nat)
      returns (dirty: bool, metadataTruncated: bool, memoryPressure: bool)
    requires record.Valid() && record.lease.Valid() && record.feed.Valid() && record.Accounted()
    modifies record`response, record`responseStarted, record`responseHeadersTruncated, record`retainedBytes,
             record`revision, record.responseBody`status, record.lease, record.lease.budget, record.feed
    ensures record.Valid() && record.lease.Valid() && record.feed.Valid()
    ensures record.Accounted()
    ensures dirty == !(old(record.captureDisabled) || old(record.responseStarted))
    ensures record.retainedBytes >= old(record.retainedBytes)
    ensures record.revision == old(record.revision) + if dirty then 1 else 0
    ensures record.feed.log == old(record.feed.log) +
              if dirty && record.feedBound
              then [Change(|old(record.feed.log)| + 1, record.sequence, record.revision, RecordUpdated)] else []
    ensures !dirty ==> record.response == old(record.response) && record.lease.reserved == old(record.lease.reserved)
                       && record.lease.budget.used == old(record.lease.budget.used)
    ensures var room := old(record.lease.budget.Room());
            var wanted := 64 + Captured(headers, headerLimit).bytes;
            && (dirty && room < 64 ==> record.response.None?)
            && (dirty && room >= 64 ==>
                  var fitting := Captured(headers, Min(room - 64, headerLimit)).headers;
                  record.response == Some(ResponseMeta(status, fitting)))
            && (memoryPressure <==> room < wanted)
            && (dirty ==>
                  record.responseHeadersTruncated == (old(record.responseHeadersTruncated) || metadataTruncated))
            && (metadataTruncated <==> memoryPressure || Captured(headers, headerLimit).truncated)
  {
    hide Captured, HeadersBytes, Numbered, Newest, Count, Flatten;
    var headersKept, reserved, truncated;
    headersKept, reserved, truncated, memoryPressure := GrantResponse(record.lease, headers, headerLimit);
    metadataTruncated := truncated || memoryPressure;
    var meta := if headersKept.Some? then Some(ResponseMeta(status, headersKept.value)) else None;
    dirty := record.SetResponseAt(meta, metadataTruncated || headersKept.None?, reserved);
    if !dirty {
      record.lease.Release(reserved);
    }
  }

  /** Draws on the lease for response metadata and captures what fits into the grant. When all
      was granted the second capture keeps what the measurement counted, so its own truncation
      flag adds nothing; when not, the response is flagged for the shortage anyway. */
  method GrantResponse(lease: BudgetLease, headers: seq<Header>, headerLimit: nat)
      returns (kept: Option<seq<Header>>, reserved: nat, truncated: bool, pressure: bool)
    requires lease.Valid()
    modifies lease, lease.budget
    ensures lease.Valid() && lease.reserved == old(lease.reserved) + reserved
    ensures lease.budget.used == old(lease.budget.used) + reserved
    ensures reserved == if kept.Some? then ResponseBytes(kept.value) else 0
    ensures var room := old(lease.budget.Room());
            && (room < RESPONSE_OVERHEAD ==> kept.None?)
            && (room >= RESPONSE_OVERHEAD ==>
                  kept == Some(Captured(headers, Min(room - RESPONSE_OVERHEAD, headerLimit)).headers))
            && (pressure <==> room < RESPONSE_OVERHEAD + Captured(headers, headerLimit).bytes)
    ensures truncated == Captured(headers, headerLimit).truncated
  {
    hide Captured, HeadersBytes;
    ghost var room := lease.budget.Room();
    var measured;
    measured, truncated := MeasureHeaders(headers, headerLimit);
    var requested := RESPONSE_OVERHEAD + measured;
    reserved := lease.ReserveUpTo(requested);
    pressure := reserved < requested;
    kept := None;
    if reserved < RESPONSE_OVERHEAD {
      lease.Release(reserved);
      reserved := 0;
    } else {
      var limit := Min(reserved - RESPONSE_OVERHEAD, headerLimit);
      CapturedBytes(headers, limit);
      CapturedBytes(headers, headerLimit);
      if reserved == requested {
        CaptureAgain(headers, headerLimit, limit);
        CaptureAgain(headers, headerLimit, Min(room - RESPONSE_OVERHEAD, headerLimit));
      }
      var list, _ := CaptureHeaders(headers, limit);
      kept := Some(list);
      var actual := ResponseBytes(list);
      if actual < reserved {
        lease.Release(reserved - actual);
        reserved := actual;
      }
    }
  }
}
