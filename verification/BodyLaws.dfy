/** Laws of captured bodies over whole streams: how the bytes are cut into appends does not
    matter, a preview is a prefix of the stream, and an old preview is a prefix of a new one. */
module BodyLaws {
  import opened Basics
  import opened Utf8
  import opened BodyCharge
  import opened Bodies

  // ---------------------------------------------------------------------------------------
  // Fragmentation

  /** A first part that fits entirely leaves the rest to be decided on its own. */
  lemma BestSplit(l: Layout, t: nat, m: nat, n: nat, available: nat)
    requires t < l.chunk && Best(l, t, m, available) == m
    ensures Cost(l, t, m) <= available && Left(l, t, m) < l.chunk
    ensures Best(l, t, m + n, available) == m + Best(l, Left(l, t, m), n, available - Cost(l, t, m))
  {
    hide Cost, Best, Left;
    BestFits(l, t, m, available);
    LeftBound(l, t, m);
    var rest := available - Cost(l, t, m);
    var r := Best(l, Left(l, t, m), n, rest);
    BestFits(l, Left(l, t, m), n, rest);
    CostAdds(l, t, m, r);
    var total := m + n;
    forall x | m + r < x <= total ensures !Fits(l, t, x, total, available) {
      CostAdds(l, t, m, x - m);
      assert !Fits(l, Left(l, t, m), x - m, n, rest);
    }
    BestIs(l, t, total, available, m + r);
  }

  /** A first part that does not fit entirely settles the matter. */
  lemma BestShort(l: Layout, t: nat, m: nat, n: nat, available: nat)
    requires t < l.chunk && m <= n && Best(l, t, m, available) < m
    ensures Best(l, t, n, available) == Best(l, t, m, available)
  {
    hide Cost, Best;
    var r := Best(l, t, m, available);
    BestFits(l, t, m, available);
    forall x | r < x <= n ensures !Fits(l, t, x, n, available) {
      if x <= m {
        assert !Fits(l, t, x, m, available);
      } else {
        assert !Fits(l, t, m, m, available);
        CostMono(l, t, m, x);
      }
    }
    BestIs(l, t, n, available, r);
  }

  lemma GrowTrailing(l: Layout, b: Body, bytes: seq<byte>)
    requires |b.trailing| < l.chunk
    ensures |Grow(l, b, bytes).trailing| == Left(l, |b.trailing|, |bytes|) < l.chunk
    ensures Grow(l, b, bytes).chained + Grow(l, b, bytes).trailing == b.chained + b.trailing + bytes
  {
    LeftBound(l, |b.trailing|, |bytes|);
    var full := |b.trailing + bytes| - Left(l, |b.trailing|, |bytes|);
    hide Left;
    Regroup(b.chained, b.trailing, bytes, full);
  }

  lemma GrowSplit(l: Layout, b: Body, x: seq<byte>, y: seq<byte>)
    requires |b.trailing| < l.chunk
    ensures |Grow(l, b, x).trailing| < l.chunk
    ensures Grow(l, Grow(l, b, x), y) == Grow(l, b, x + y)
  {
    GrowTrailing(l, b, x);
    GrowFields(l, b, x);
    var g := Grow(l, b, x);
    GrowTrailing(l, g, y);
    GrowFields(l, g, y);
    GrowTrailing(l, b, x + y);
    GrowFields(l, b, x + y);
    CostAdds(l, |b.trailing|, |x|, |y|);
    hide Grow, Left;
    Assoc(b.chained + b.trailing, x, y);
    var h, k := Grow(l, g, y), Grow(l, b, x + y);
    SuffixUnique(h.chained, h.trailing, k.chained, k.trailing);
  }

  lemma GrowFields(l: Layout, b: Body, bytes: seq<byte>)
    requires |b.trailing| < l.chunk
    ensures Grow(l, b, bytes).status == b.status && Grow(l, b, bytes).sealed == b.sealed
  {
  }

  /** Growing does not look at the status. */
  lemma GrowStatus(l: Layout, b: Body, bytes: seq<byte>, s: Status)
    requires |b.trailing| < l.chunk
    ensures Grow(l, b.(status := s), bytes) == Grow(l, b, bytes).(status := s)
  {
  }

  lemma AppendFacts(l: Layout, b: Body, bytes: seq<byte>, perBody: nat, available: nat, disabled: bool)
    requires |b.trailing| < l.chunk
    ensures var (b', charged) := Append(l, b, bytes, perBody, available, disabled);
            |b'.trailing| < l.chunk && charged <= available
  {
    var kept := Granted(l, b, bytes, perBody, available);
    BestFits(l, |b.trailing|, Requested(b, bytes, perBody), available);
    GrowTrailing(l, b, bytes[..kept]);
    GrowStatus(l, b, bytes[..kept], Seen(b, bytes).status);
  }

  /** What the grants of two appends add up to, and which limit the pair ends with. */
  lemma GrantsAdd(l: Layout, b: Body, x: seq<byte>, y: seq<byte>, perBody: nat, available: nat)
    requires |b.trailing| < l.chunk && x != [] && y != []
    ensures
      var kx := Granted(l, b, x, perBody, available);
      var bx := Append(l, b, x, perBody, available, false).0;
      var cx := Append(l, b, x, perBody, available, false).1;
      var kxy := Granted(l, b, x + y, perBody, available);
      kx <= |x| && !b.status.stream.Terminal() ==>
      |bx.trailing| < l.chunk && cx <= available &&
      var ky := Granted(l, bx, y, perBody, available - cx);
      && ky <= |y| && kxy == kx + ky && (ky > 0 ==> kx == |x|)
      && Cost(l, |b.trailing|, kxy) == cx + Cost(l, |bx.trailing|, ky)
      && LimitAfter(bx, y, Requested(bx, y, perBody), ky)
           == LimitAfter(b, x + y, Requested(b, x + y, perBody), kxy)
  {
    hide Cost, Best;
    var t := |b.trailing|;
    if !b.status.stream.Terminal() {
      AppendFacts(l, b, x, perBody, available, false);
      var rx, rxy := Requested(b, x, perBody), Requested(b, x + y, perBody);
      var kx := Granted(l, b, x, perBody, available);
      BestFits(l, t, rx, available);
      BestFits(l, t, rxy, available);
      var (bx, cx) := Append(l, b, x, perBody, available, false);
      AppendTrailing(l, b, x, perBody, available);
      var ry := Requested(bx, y, perBody);
      BestFits(l, |bx.trailing|, ry, available - cx);
      NothingFits(l, |bx.trailing|);
      if kx < rx {
        BestShort(l, t, rx, rxy, available);
      } else if rx < |x| {
        assert rxy == rx;
      } else {
        BestSplit(l, t, |x|, ry, available);
        assert rxy == |x| + ry;
        CostAdds(l, t, kx, Best(l, |bx.trailing|, ry, available - cx));
      }
    }
  }

  lemma AppendTrailing(l: Layout, b: Body, x: seq<byte>, perBody: nat, available: nat)
    requires |b.trailing| < l.chunk && x != [] && !b.status.stream.Terminal()
    ensures var kx := Granted(l, b, x, perBody, available);
            var (bx, cx) := Append(l, b, x, perBody, available, false);
            kx <= |x| && |bx.trailing| == Left(l, |b.trailing|, kx) && cx == Cost(l, |b.trailing|, kx)
            && bx.status.limit == LimitAfter(b, x, Requested(b, x, perBody), kx)
            && bx.status.retained == b.status.retained + kx && !bx.status.stream.Terminal()
  {
    hide Cost, Best;
    var kx := Granted(l, b, x, perBody, available);
    BestFits(l, |b.trailing|, Requested(b, x, perBody), available);
    GrowTrailing(l, Seen(b, x), x[..kx]);
  }

  /** Two appends in a row, with nobody else drawing on the budget, are one append. */
  lemma TwoAppends(l: Layout, b: Body, x: seq<byte>, y: seq<byte>, perBody: nat, available: nat, disabled: bool)
    requires |b.trailing| < l.chunk
    ensures
      var (bx, cx) := Append(l, b, x, perBody, available, disabled);
      |bx.trailing| < l.chunk && cx <= available &&
      var (bxy, cy) := Append(l, bx, y, perBody, available - cx, disabled);
      Append(l, b, x + y, perBody, available, disabled) == (bxy, cx + cy)
  {
    AppendFacts(l, b, x, perBody, available, disabled);
    if x == [] {
      assert x + y == y;
    } else if y == [] {
      assert x + y == x;
    } else if !disabled && !b.status.stream.Terminal() {
      TwoLiveAppends(l, b, x, y, perBody, available);
    }
  }

  lemma TwoLiveAppends(l: Layout, b: Body, x: seq<byte>, y: seq<byte>, perBody: nat, available: nat)
    requires |b.trailing| < l.chunk && x != [] && y != [] && !b.status.stream.Terminal()
    ensures
      var (bx, cx) := Append(l, b, x, perBody, available, false);
      |bx.trailing| < l.chunk && cx <= available &&
      var (bxy, cy) := Append(l, bx, y, perBody, available - cx, false);
      Append(l, b, x + y, perBody, available, false) == (bxy, cx + cy)
  {
    hide Cost, Best, Left;
    AppendFacts(l, b, x, perBody, available, false);
    GrantsAdd(l, b, x, y, perBody, available);
    AppendTrailing(l, b, x, perBody, available);
    var (bx, cx) := Append(l, b, x, perBody, available, false);
    AppendTrailing(l, bx, y, perBody, available - cx);
    AppendTrailing(l, b, x + y, perBody, available);
    var kx, ky := Granted(l, b, x, perBody, available), Granted(l, bx, y, perBody, available - cx);
    assert (x + y)[..kx + ky] == x[..kx] + y[..ky];
    GrowTwice(l, b, x[..kx], y[..ky], Seen(b, x).status, Seen(bx, y).status, Seen(b, x + y).status, bx.status);
  }

  /** The bytes of both appends end up where those of the single one do. */
  lemma GrowTwice(l: Layout, b: Body, x: seq<byte>, y: seq<byte>, s1: Status, s2: Status, s3: Status, mid: Status)
    requires |b.trailing| < l.chunk
    ensures |Grow(l, b.(status := s1), x).trailing| < l.chunk
    ensures var g := Grow(l, Grow(l, b.(status := s1), x).(status := mid).(status := s2), y);
            var h := Grow(l, b.(status := s3), x + y);
            g.chained == h.chained && g.trailing == h.trailing && g.sealed == h.sealed == b.sealed
  {
    GrowSplit(l, b, x, y);
    GrowStatus(l, b, x, s1);
    GrowStatus(l, Grow(l, b, x), y, s2);
    GrowStatus(l, b, x + y, s3);
    GrowFields(l, b, x + y);
  }

  // ---------------------------------------------------------------------------------------
  // Any number of fragments

  function AppendAll(l: Layout, b: Body, parts: seq<seq<byte>>, perBody: nat, available: nat, disabled: bool):
      (Body, nat)
    requires |b.trailing| < l.chunk
    decreases |parts|
  {
    hide Append;
    if parts == [] then (b, 0)
    else
      AppendFacts(l, b, parts[0], perBody, available, disabled);
      var (b1, c1) := Append(l, b, parts[0], perBody, available, disabled);
      var (b2, c2) := AppendAll(l, b1, parts[1..], perBody, available - c1, disabled);
      (b2, c1 + c2)
  }

  /** Fragmentation independence: the body (preview, counts, limit) and the charge depend on the
      bytes alone, not on how they were cut into appends. */
  lemma {:induction false} FragmentsDoNotMatter(
      l: Layout, b: Body, parts: seq<seq<byte>>, perBody: nat, available: nat, disabled: bool)
    requires |b.trailing| < l.chunk
    ensures AppendAll(l, b, parts, perBody, available, disabled)
         == Append(l, b, Join(parts), perBody, available, disabled)
    decreases |parts|
  {
    hide Append;
    if parts == [] {
      NothingAppended(l, b, perBody, available, disabled);
    } else {
      AppendFacts(l, b, parts[0], perBody, available, disabled);
      var (b1, c1) := Append(l, b, parts[0], perBody, available, disabled);
      FragmentsDoNotMatter(l, b1, parts[1..], perBody, available - c1, disabled);
      TwoAppends(l, b, parts[0], Join(parts[1..]), perBody, available, disabled);
    }
  }

  lemma NothingAppended(l: Layout, b: Body, perBody: nat, available: nat, disabled: bool)
    requires |b.trailing| < l.chunk
    ensures Append(l, b, [], perBody, available, disabled) == (b, 0)
  {
  }

  // ---------------------------------------------------------------------------------------
  // Prefix and snapshot laws over whole lifetimes

  /** What can happen to one body, with the room the shared budget has at that moment. */
  datatype Step = Bytes(bytes: seq<byte>, available: nat) | Ended(t: Terminal) | Disable | Reopened

  /** A body, whether its record was removed from the store, and every byte observed so far. */
  datatype Life = Life(body: Body, disabled: bool, stream: seq<byte>)

  const BORN: Life := Life(FRESH, false, [])

  function After(l: Layout, perBody: nat, s: Life, step: Step): Life
    requires |s.body.trailing| < l.chunk
  {
    match step
    case Bytes(bytes, available) =>
      Life(Append(l, s.body, bytes, perBody, available, s.disabled).0, s.disabled,
           if Ignored(s.body, bytes) then s.stream else s.stream + bytes)
    case Ended(t) => s.(body := Finish(s.body, t))
    case Disable => s.(disabled := true)
    case Reopened => if s.disabled then s else s.(body := Reopen(s.body))
  }

  /** The guard a response has to respect: it is set before its body has ended with a partial
      block, or when nothing more would be kept anyway. */
  predicate SafeToReopen(b: Body, perBody: nat) {
    b.sealed.None? || b.status.limit.Some? || b.status.retained >= perBody
  }

  predicate Orderly(s: Life, step: Step, perBody: nat) {
    step.Reopened? && !s.disabled ==> SafeToReopen(s.body, perBody)
  }

  function Final(l: Layout, perBody: nat, s: Life, steps: seq<Step>): Life
    requires |s.body.trailing| < l.chunk
    decreases |steps|
  {
    if steps == [] then s
    else
      StaysBounded(l, perBody, s, steps[0]);
      Final(l, perBody, After(l, perBody, s, steps[0]), steps[1..])
  }

  ghost predicate OrderlyRun(l: Layout, perBody: nat, s: Life, steps: seq<Step>)
    requires |s.body.trailing| < l.chunk
    decreases |steps|
  {
    steps == [] ||
    (StaysBounded(l, perBody, s, steps[0]);
     Orderly(s, steps[0], perBody) && OrderlyRun(l, perBody, After(l, perBody, s, steps[0]), steps[1..]))
  }

  lemma StaysBounded(l: Layout, perBody: nat, s: Life, step: Step)
    requires |s.body.trailing| < l.chunk
    ensures |After(l, perBody, s, step).body.trailing| < l.chunk
  {
    hide Append;
    if step.Bytes? {
      AppendFacts(l, s.body, step.bytes, perBody, step.available, s.disabled);
    }
  }

  /** The prefix law: the preview is the retained prefix of the stream, and it is the whole
      stream exactly when no limit was hit (unless the record was removed). */
  predicate PrefixLaw(s: Life) {
    var status := s.body.status;
    && status.observed == |s.stream|
    && status.retained <= |s.stream|
    && Kept(s.body) == s.stream[..status.retained]
    && (!s.disabled ==> (status.limit.None? <==> status.retained == |s.stream|))
    && (status.limit.Some? ==> status.retained < |s.stream|)
  }

  /** What the laws rest on between steps. */
  predicate Sound(l: Layout, perBody: nat, s: Life) {
    && |s.body.trailing| < l.chunk
    && PrefixLaw(s)
    && (s.body.sealed.Some? ==>
          && s.body.trailing == [] && 0 < |s.body.sealed.value| < l.chunk
          && (s.body.status.stream.Terminal() || s.disabled || SafeToReopen(s.body, perBody)))
  }

  /** One step: the law is kept, the preview only ever grows at its end, and a limited preview
      not at all. */
  lemma SoundStep(l: Layout, perBody: nat, s: Life, step: Step)
    requires Sound(l, perBody, s) && Orderly(s, step, perBody)
    ensures var s' := After(l, perBody, s, step);
            && Sound(l, perBody, s')
            && s.stream <= s'.stream && Kept(s.body) <= Kept(s'.body)
            && (s.disabled ==> s'.disabled)
            && (s.body.status.limit.Some? || s.disabled ==> Kept(s'.body) == Kept(s.body))
            && (s.body.status.limit.Some? ==> s'.body.status.limit == s.body.status.limit)
  {
    match step
    case Bytes(bytes, available) =>
      if !Ignored(s.body, bytes) && !s.disabled { SoundBytes(l, perBody, s, bytes, available); }
    case Ended(t) => KeptBySeal(l, perBody, s, t);
    case Disable =>
    case Reopened =>
  }

  lemma KeptBySeal(l: Layout, perBody: nat, s: Life, t: Terminal)
    requires Sound(l, perBody, s)
    ensures Kept(Finish(s.body, t)) == Kept(s.body) && Sound(l, perBody, s.(body := Finish(s.body, t)))
  {
  }

  lemma SoundBytes(l: Layout, perBody: nat, s: Life, bytes: seq<byte>, available: nat)
    requires Sound(l, perBody, s) && !Ignored(s.body, bytes) && !s.disabled
    ensures var b' := Append(l, s.body, bytes, perBody, available, false).0;
            Sound(l, perBody, Life(b', false, s.stream + bytes)) && Kept(s.body) <= Kept(b')
            && (s.body.status.limit.Some? ==> Kept(b') == Kept(s.body) && b'.status.limit == s.body.status.limit)
  {
    hide Cost, Best, Left;
    var b := s.body;
    var kept := Granted(l, b, bytes, perBody, available);
    BestFits(l, |b.trailing|, Requested(b, bytes, perBody), available);
    AppendTrailing(l, b, bytes, perBody, available);
    LeftBound(l, |b.trailing|, kept);
    var b' := Append(l, b, bytes, perBody, available, false).0;
    GrowStatus(l, b, bytes[..kept], Seen(b, bytes).status);
    GrowFields(l, b, bytes[..kept]);
    if b.status.limit.Some? || b.status.retained >= perBody {
      assert kept == 0 && bytes[..0] == [];
      GrowNothing(l, b);
      assert (s.stream + bytes)[..b.status.retained] == s.stream[..b.status.retained];
    } else {
      GrowTrailing(l, b, bytes[..kept]);
      assert Kept(b) == s.stream;
      assert (s.stream + bytes)[..b.status.retained + kept] == s.stream + bytes[..kept];
    }
  }

  /** The laws over a whole life, from any sound state. */
  lemma {:induction false} LawsHold(l: Layout, perBody: nat, s: Life, steps: seq<Step>)
    requires Sound(l, perBody, s) && OrderlyRun(l, perBody, s, steps)
    ensures var s' := Final(l, perBody, s, steps);
            && Sound(l, perBody, s') && s.stream <= s'.stream
            && Kept(s.body) <= Kept(s'.body)
            && (s.body.status.limit.Some? || s.disabled ==> Kept(s'.body) == Kept(s.body))
    decreases |steps|
  {
    hide PrefixLaw, After;
    if steps != [] {
      SoundStep(l, perBody, s, steps[0]);
      StaysBounded(l, perBody, s, steps[0]);
      LawsHold(l, perBody, After(l, perBody, s, steps[0]), steps[1..]);
    }
  }

  /** From its birth: a preview is always the retained prefix of what was observed. */
  lemma PreviewIsPrefix(l: Layout, perBody: nat, steps: seq<Step>)
    requires OrderlyRun(l, perBody, BORN, steps)
    ensures PrefixLaw(Final(l, perBody, BORN, steps))
  {
    hide Final;
    LawsHold(l, perBody, BORN, steps);
  }

  /** Without the guard the law is false: a one-byte response that ended, was set afterwards and
      then received another byte shows the wrong preview. */
  lemma LateResponseBreaksTheLaw(l: Layout)
    requires l.chunk > 1
    ensures var room := 1 + l.overhead;
            var steps := [Bytes([1], room), Ended(Completes), Reopened, Bytes([0], room)];
            !PrefixLaw(Final(l, 10, BORN, steps))
  {
    var room := 1 + l.overhead;
    FirstByte(l);
    hide Append, Best, Cost, Grow;
    var s1 := After(l, 10, BORN, Bytes([1], room));
    var s2 := After(l, 10, s1, Ended(Completes));
    var s3 := After(l, 10, s2, Reopened);
    LateByte(l, 10, s3);
    FinalFour(l, 10, BORN, Bytes([1], room), Ended(Completes), Reopened, Bytes([0], room));
  }

  lemma FirstByte(l: Layout)
    requires l.chunk > 1
    ensures Append(l, FRESH, [1], 10, 1 + l.overhead, false).0
         == Body(Status(Streaming, 1, 1, None, None), [], [1], None)
  {
    OneByte(l, l.overhead);
    GrowFits(l, Seen(FRESH, [1]), [1]);
    assert [1][..1] == [1];
    hide Best, Grow, Cost;
  }

  lemma FinalFour(l: Layout, perBody: nat, s: Life, a: Step, b: Step, c: Step, d: Step)
    requires |s.body.trailing| < l.chunk
    ensures |After(l, perBody, s, a).body.trailing| < l.chunk
    ensures var s1 := After(l, perBody, s, a); |After(l, perBody, s1, b).body.trailing| < l.chunk
    ensures var s2 := After(l, perBody, After(l, perBody, s, a), b);
            |After(l, perBody, s2, c).body.trailing| < l.chunk
    ensures var s3 := After(l, perBody, After(l, perBody, After(l, perBody, s, a), b), c);
            Final(l, perBody, s, [a, b, c, d]) == After(l, perBody, s3, d)
  {
    hide After;
    StaysBounded(l, perBody, s, a);
    var s1 := After(l, perBody, s, a);
    StaysBounded(l, perBody, s1, b);
    var s2 := After(l, perBody, s1, b);
    StaysBounded(l, perBody, s2, c);
    var s3 := After(l, perBody, s2, c);
    StaysBounded(l, perBody, s3, d);
    assert [a, b, c, d][1..] == [b, c, d] && [b, c, d][1..] == [c, d] && [c, d][1..] == [d] && [d][1..] == [];
    assert Final(l, perBody, s, [a, b, c, d]) == Final(l, perBody, s1, [b, c, d]);
    assert Final(l, perBody, s1, [b, c, d]) == Final(l, perBody, s2, [c, d]);
    assert Final(l, perBody, s2, [c, d]) == Final(l, perBody, s3, [d]);
    assert Final(l, perBody, s3, [d]) == Final(l, perBody, After(l, perBody, s3, d), []);
  }

  /** Exactly when setting the response late is harmless: every continuation keeps the law if and
      only if the guard holds at that moment. */
  lemma ReopenExact(l: Layout, perBody: nat, s: Life)
    requires Sound(l, perBody, s) && !s.disabled
    ensures SafeToReopen(s.body, perBody)
       <==> (forall steps: seq<Step> :: Step.Reopened !in steps ==>
               PrefixLaw(Final(l, perBody, s.(body := Reopen(s.body)), steps)))
  {
    var r := s.(body := Reopen(s.body));
    if SafeToReopen(s.body, perBody) {
      assert Sound(l, perBody, r);
      forall steps: seq<Step> | Step.Reopened !in steps
        ensures PrefixLaw(Final(l, perBody, r, steps))
      {
        NoReopenIsOrderly(l, perBody, r, steps);
        LawsHold(l, perBody, r, steps);
      }
    } else {
      var steps := [Bytes([0], 1 + l.overhead)];
      LateByte(l, perBody, r);
      assert Step.Reopened !in steps;
      assert steps[1..] == [];
      StaysBounded(l, perBody, r, steps[0]);
      assert Final(l, perBody, r, steps) == Final(l, perBody, After(l, perBody, r, steps[0]), steps[1..]);
    }
  }

  lemma {:induction false} NoReopenIsOrderly(l: Layout, perBody: nat, s: Life, steps: seq<Step>)
    requires |s.body.trailing| < l.chunk && Step.Reopened !in steps
    ensures OrderlyRun(l, perBody, s, steps)
    decreases |steps|
  {
    hide After;
    if steps != [] {
      assert steps[0] in steps;
      StaysBounded(l, perBody, s, steps[0]);
      assert forall x :: x in steps[1..] ==> x in steps;
      NoReopenIsOrderly(l, perBody, After(l, perBody, s, steps[0]), steps[1..]);
    }
  }

  /** One byte more behind a sealed block is counted as kept but is not in the preview. */
  lemma LateByte(l: Layout, perBody: nat, r: Life)
    requires |r.body.trailing| < l.chunk && r.body.trailing == [] && r.body.sealed.Some?
    requires 0 < |r.body.sealed.value| < l.chunk && r.body.status.limit.None? && !r.disabled
    requires r.body.status.stream == Streaming && r.body.status.retained < perBody
    requires |Kept(r.body)| == r.body.status.retained
    ensures !PrefixLaw(After(l, perBody, r, Bytes([0], 1 + l.overhead)))
  {
    OneByte(l, l.overhead);
    GrowFits(l, Seen(r.body, [0]), [0]);
    assert [0][..1] == [0];
    hide Best, Cost, Grow;
    var b' := Append(l, r.body, [0], perBody, 1 + l.overhead, false).0;
    assert |Kept(b')| == r.body.status.retained;
  }

  lemma OneByte(l: Layout, spare: nat)
    requires l.chunk > 1
    ensures Best(l, 0, 1, 1 + spare) == 1
  {
    Euclid(1, 0, 1, l.chunk);
    assert Cost(l, 0, 1) == 1;
  }

  /** Bytes that do not fill the trailing block only lengthen it. */
  lemma GrowFits(l: Layout, b: Body, bytes: seq<byte>)
    requires |b.trailing| + |bytes| < l.chunk
    ensures Grow(l, b, bytes) == b.(trailing := b.trailing + bytes)
  {
    Euclid(|b.trailing| + |bytes|, 0, |b.trailing| + |bytes|, l.chunk);
    var all := b.trailing + bytes;
    assert all[..0] == [] && all[0..] == all && b.chained + [] == b.chained;
  }
}
