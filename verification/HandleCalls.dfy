/** Handle calls on records of a store. The record may be in the store, may have left it, or may
    not have reached it yet; either way the store, the feed and the accounts stay right. */
module HandleCalls {
  import opened Basics
  import opened Utf8
  import opened Bodies
  import opened BodyCharge
  import opened HeaderCapture
  import opened Records
  import opened CaptureStore

  /** The body of a side, and the other one. */
  function Near(record: CaptureRecord, side: Side): BodyCapture {
    match side case RequestSide => record.requestBody case ResponseSide => record.responseBody
  }

  function Far(record: CaptureRecord, side: Side): BodyCapture {
    match side case RequestSide => record.responseBody case ResponseSide => record.requestBody
  }

  /** `CaptureHandle::append`. A record that left its store goes on counting what it sees, and
      keeps nothing of it. */
  method AppendTo(store: Store, record: CaptureRecord, side: Side, bytes: seq<byte>, perBody: nat)
      returns (r: AppendResult)
    requires store.Valid() && record.Valid() && record.lease.Valid() && record.Accounted()
    requires record.feed == store.feed && (record in store.universe || !record.feedBound)
    modifies record`revision, record`retainedBytes, record.BodyOf(side), record.lease, record.lease.budget, store.feed
    ensures store.Valid() && record.Valid() && record.lease.Valid() && record.Accounted()
    ensures var was, now := old(Near(record, side).View()), Near(record, side).View();
            && now.status.observed == was.status.observed + (if was.status.stream.Terminal() then 0 else |bytes|)
            && (record.captureDisabled ==>
                  && Kept(now) == Kept(was) && record.retainedBytes == old(record.retainedBytes)
                  && record.revision == old(record.revision))
    ensures Far(record, side).View() == old(Far(record, side).View())
    ensures var was, now := old(Near(record, side).View()).status, Near(record, side).View().status;
            && (r.changed <==> record.revision > old(record.revision))
            && (r.perBodyLimited <==> was.limit.None? && now.limit == Some(PerBodyLimit))
            && (r.memoryLimited <==> was.limit.None? && now.limit == Some(TotalMemoryLimit))
  {
    hide Best, Cost, Grow, Flatten;
    r := record.AppendBody(side, bytes, perBody);
    store.HandleCall(record);
  }

  /** `CaptureHandle::complete_at` and its kin: only the first end counts, and nothing kept is lost. */
  method FinishOn(store: Store, record: CaptureRecord, side: Side, t: Terminal) returns (changed: bool)
    requires store.Valid() && record.Valid() && record.Accounted()
    requires record.feed == store.feed && (record in store.universe || !record.feedBound)
    modifies record`revision, record.BodyOf(side), store.feed
    ensures store.Valid() && record.Valid() && record.Accounted()
    ensures changed == !old(record.BodyOf(side).status.stream.Terminal())
    ensures Far(record, side).View() == old(Far(record, side).View())
    ensures var was, now := old(Near(record, side).View()), Near(record, side).View();
            && (if changed then Says(now.status, t) else now == was)
            && (!t.Fails? ==> now.status.error == was.status.error)
            && (was.sealed.None? || was.trailing == [] ==> Kept(now) == Kept(was))
            && now.status.observed == was.status.observed
            && now.status.retained == was.status.retained && now.status.limit == was.status.limit
    ensures record.revision == old(record.revision) + if changed then 1 else 0
  {
    FinishSays(record.BodyOf(side).View(), t);
    hide Finish, Flatten, Kept;
    changed := record.FinishBody(side, t);
    store.HandleCall(record);
  }

  lemma FinishSays(b: Body, t: Terminal)
    ensures var now := Finish(b, t);
            && (if b.status.stream.Terminal() then now == b else Says(now.status, t))
            && (!t.Fails? ==> now.status.error == b.status.error)
            && (b.sealed.None? || b.trailing == [] ==> Kept(now) == Kept(b))
            && now.status.observed == b.status.observed
            && now.status.retained == b.status.retained && now.status.limit == b.status.limit
  {
  }

  /** `CaptureHandle::set_response_at` */
  method RespondOn(store: Store, record: CaptureRecord, status: nat, headers: seq<Header>, headerLimit: nat)
      returns (dirty: bool, metadataTruncated: bool, memoryPressure: bool)
    requires store.Valid() && record.Valid() && record.lease.Valid() && record.Accounted()
    requires record.feed == store.feed && (record in store.universe || !record.feedBound)
    modifies record`response, record`responseStarted, record`responseHeadersTruncated, record`retainedBytes,
             record`revision, record.responseBody`status, record.lease, record.lease.budget, store.feed
    ensures store.Valid() && record.Valid() && record.lease.Valid() && record.Accounted()
  {
    dirty, metadataTruncated, memoryPressure := HandleSetResponse(record, status, headers, headerLimit);
    store.HandleCall(record);
  }
}
