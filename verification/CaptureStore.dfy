/** The retention store. Records are kept in sequence order; the byte count it works with is
    sampled when a record comes in, while the record goes on growing. */
module CaptureStore {
  import opened Basics
  import opened ChangeFeed
  import opened FeedLog
  import opened RecordTables
  import opened Records
  import opened Sums

  predicate Sorted(cs: seq<CaptureRecord>) {
    forall i, j :: 0 <= i < j < |cs| ==> cs[i].sequence < cs[j].sequence
  }

  function Self(n: nat): nat { n }

  function Bytes(sizes: seq<nat>): nat { Sum(sizes, Self) }

  /** What the records hold now. */
  function Sizes(cs: seq<CaptureRecord>): seq<nat>
    reads cs
  {
    seq(|cs|, i requires 0 <= i < |cs| reads cs => cs[i].retainedBytes)
  }

  function Total(cs: seq<CaptureRecord>): nat
    reads cs
  {
    Bytes(Sizes(cs))
  }

  function Stamps(cs: seq<CaptureRecord>): seq<Stamp>
    reads cs
  {
    seq(|cs|, i requires 0 <= i < |cs| reads cs => Stamp(cs[i].sequence, cs[i].revision))
  }

  /** The sequence-to-revision table the store stands for. */
  ghost function TableOf(cs: seq<CaptureRecord>): Table
    requires Sorted(cs)
    reads cs
  {
    TableFrom(Stamps(cs))
  }

  lemma TotalSplit(a: seq<CaptureRecord>, b: seq<CaptureRecord>)
    ensures Total(a + b) == Total(a) + Total(b)
  {
    assert Sizes(a + b) == Sizes(a) + Sizes(b);
    SumConcat(Sizes(a), Sizes(b), Self);
  }

  lemma TotalWithout(cs: seq<CaptureRecord>, k: nat)
    requires k < |cs|
    ensures Total(cs) == Total(Without(cs, k)) + cs[k].retainedBytes
  {
    assert cs == cs[..k] + ([cs[k]] + cs[k + 1..]);
    TotalSplit(cs[..k], [cs[k]] + cs[k + 1..]);
    TotalSplit([cs[k]], cs[k + 1..]);
    TotalSplit(cs[..k], cs[k + 1..]);
    SumAppend([], cs[k].retainedBytes, Self);
    assert Sizes([cs[k]]) == [] + [cs[k].retainedBytes];
  }

  lemma TotalWith(cs: seq<CaptureRecord>, k: nat, c: CaptureRecord)
    requires k <= |cs|
    ensures Total(With(cs, k, c)) == Total(cs) + c.retainedBytes
  {
    assert Without(With(cs, k, c), k) == cs;
    TotalWithout(With(cs, k, c), k);
  }

  lemma MembersWithout(cs: seq<CaptureRecord>, k: nat)
    requires Sorted(cs) && k < |cs|
    ensures Sorted(Without(cs, k)) && cs[k] !in Without(cs, k)
    ensures forall c :: c in Without(cs, k) <==> c in cs && c != cs[k]
  {
    forall c ensures c in Without(cs, k) <==> c in cs && c != cs[k] { MemberWithout(cs, k, c); }
  }

  lemma MemberWithout(cs: seq<CaptureRecord>, k: nat, c: CaptureRecord)
    requires Sorted(cs) && k < |cs|
    ensures c in Without(cs, k) <==> c in cs && c != cs[k]
  {
    var w := Without(cs, k);
    if c in w {
      var i :| 0 <= i < |w| && w[i] == c;
      assert c == cs[if i < k then i else i + 1];
    }
    if c in cs && c != cs[k] {
      var i :| 0 <= i < |cs| && cs[i] == c;
      assert c == w[if i < k then i else i - 1];
    }
  }

  /** Taking a record out of a sorted list takes its entry out of the table. */
  lemma RecordOut(cs: seq<CaptureRecord>, k: nat)
    requires Sorted(cs) && k < |cs|
    ensures Sorted(Without(cs, k)) && TableOf(Without(cs, k)) == TableOf(cs) - {cs[k].sequence}
    ensures cs[k].sequence in TableOf(cs) && TableOf(cs)[cs[k].sequence] == cs[k].revision
    ensures cs[k] !in Without(cs, k)
    ensures forall c :: c in Without(cs, k) <==> c in cs && c != cs[k]
  {
    MembersWithout(cs, k);
    assert Stamps(Without(cs, k)) == Without(Stamps(cs), k);
    TableWithout(Stamps(cs), k);
  }

  /** Where a sequence belongs in a sorted list. */
  predicate Place(cs: seq<CaptureRecord>, q: nat, k: nat) {
    && k <= |cs|
    && (forall i :: 0 <= i < k ==> cs[i].sequence < q)
    && (forall i :: k <= i < |cs| ==> cs[i].sequence > q)
  }

  lemma RecordIn(cs: seq<CaptureRecord>, k: nat, c: CaptureRecord)
    requires Sorted(cs) && Place(cs, c.sequence, k)
    ensures Sorted(With(cs, k, c)) && TableOf(With(cs, k, c)) == TableOf(cs)[c.sequence := c.revision]
    ensures c.sequence !in TableOf(cs)
    ensures forall d :: d in With(cs, k, c) <==> d in cs || d == c
  {
    hide TableOf;
    var w := With(cs, k, c);
    assert Without(w, k) == cs && w[k] == c;
    assert Sorted(w);
    RecordOut(w, k);
  }

  lemma StampsSplit(a: seq<CaptureRecord>, b: seq<CaptureRecord>)
    ensures Stamps(a + b) == Stamps(a) + Stamps(b)
  {
  }

  lemma RemovingMore(log: seq<Change>, a: seq<CaptureRecord>, b: seq<CaptureRecord>, kind: Kind)
    requires |b| <= 1
    ensures Removing(Removing(log, Stamps(a), kind), Stamps(b), kind) == Removing(log, Stamps(a + b), kind)
  {
    StampsSplit(a, b);
    if b == [] {
      assert Stamps(b) == [] && a + b == a;
    } else {
      var s := Stamps(b)[0];
      assert Stamps(b) == [s] == [] + [s];
      RemovingOne(log, Stamps(a), s, kind);
    }
  }

  /** `was` fell apart into `now` and `gone`, and `done` says which went. */
  predicate Parted(was: seq<CaptureRecord>, now: seq<CaptureRecord>, gone: seq<CaptureRecord>, done: set<nat>) {
    && (forall d :: d in now ==> d in was && d.sequence !in done)
    && (forall d :: d in gone ==> d in was && d.sequence in done)
    && (forall d :: d in was ==> d in if d.sequence in done then gone else now)
  }

  predicate Before(gone: seq<CaptureRecord>, q: nat) { Sorted(gone) && forall d :: d in gone ==> d.sequence < q }

  lemma PartedStart(was: seq<CaptureRecord>)
    ensures Parted(was, was, [], {}) && Before([], 0)
  {
  }

  lemma PartedStep(was: seq<CaptureRecord>, kept: seq<CaptureRecord>, left: seq<CaptureRecord>, done: set<nat>,
                   q: nat, now: seq<CaptureRecord>, gone: seq<CaptureRecord>)
    requires Parted(was, kept, left, done) && q !in done
    requires forall d :: d in now <==> d in kept && d.sequence != q
    requires forall d :: d in gone <==> d in left || (d in kept && d.sequence == q)
    ensures Parted(was, now, gone, done + {q})
  {
  }

  lemma PartedAll(was: seq<CaptureRecord>, now: seq<CaptureRecord>, gone: seq<CaptureRecord>, qs: seq<nat>, q: nat)
    requires Parted(was, now, gone, set q | q in qs) && Before(gone, q)
    ensures forall d :: d in now <==> d in was && d.sequence !in qs
    ensures forall d :: d in gone <==> d in was && d.sequence in qs
    ensures Sorted(gone)
  {
  }

  lemma BeforeMono(gone: seq<CaptureRecord>, q: nat, r: nat)
    requires Before(gone, q) && q <= r
    ensures Before(gone, r)
  {
  }

  lemma NoneGone()
    ensures Total([]) == 0 && Stamps([]) == []
  {
    SumZero(Sizes([]), Self);
  }

  class Store {
    const feed: Feed
    const maxRecords: nat
    const maxBytes: nat
    var captures: seq<CaptureRecord>
    var retainedBytes: nat
    var revision: nat
    /** Every record that was ever given this store's feed. */
    ghost var universe: set<CaptureRecord>

    /** The records on the feed are exactly `on`, folding the feed gives their table, and every
        record that left has stopped keeping bytes. */
    ghost predicate Linked(on: seq<CaptureRecord>)
      reads this`universe, universe, feed, on
    {
      && feed.Valid() && Sorted(on)
      && (forall c :: c in on ==> c in universe)
      && (forall c :: c in universe ==> c.feed == feed)
      && (forall c :: c in universe ==> (c.feedBound <==> c in on) && (c.feedBound || c.captureDisabled))
      && Replay(feed.log) == Some(TableOf(on))
    }

    /** What holds whenever no store method is running. */
    ghost predicate Valid()
      reads this, universe, feed, captures
    {
      Linked(captures) && retainedBytes <= Total(captures)
    }

    constructor (feed: Feed, maxRecords: nat, maxBytes: nat)
      requires feed.Valid() && feed.log == []
      ensures Valid() && captures == [] && universe == {} && this.feed == feed
      ensures this.maxRecords == maxRecords && this.maxBytes == maxBytes
    {
      this.feed, this.maxRecords, this.maxBytes := feed, maxRecords, maxBytes;
      captures, retainedBytes, revision, universe := [], 0, 0, {};
    }

    /** Takes one record off the feed. */
    method DropRecord(c: CaptureRecord, kind: Kind, ghost on: seq<CaptureRecord>, ghost k: nat)
      requires Linked(on) && k < |on| && on[k] == c && kind.Removal()
      modifies c`captureDisabled, c`feedBound, feed
      ensures Linked(Without(on, k)) && c.captureDisabled
      ensures feed.log == old(feed.log) + [Change(|old(feed.log)| + 1, c.sequence, c.revision, kind)]
    {
      hide Replay, Numbered, Newest, TableOf;
      RecordOut(on, k);
      ReplaySnoc(feed.log, Change(|feed.log| + 1, c.sequence, c.revision, kind));
      c.RemoveFromStore(kind);
      SameTable(Without(on, k));
    }

    /** Only revisions and sequences matter for a table. */
    twostate lemma SameTable(on: seq<CaptureRecord>)
      requires Sorted(on) && forall c :: c in on ==> c.revision == old(c.revision)
      ensures TableOf(on) == old(TableOf(on))
    {
      assert Stamps(on) == old(Stamps(on));
    }

    /** Taking records on or off the feed changes neither their sizes nor their revisions. */
    twostate lemma SameRecords(on: seq<CaptureRecord>)
      requires forall c :: c in on ==> c.retainedBytes == old(c.retainedBytes) && c.revision == old(c.revision)
      ensures Sizes(on) == old(Sizes(on)) && Total(on) == old(Total(on)) && Stamps(on) == old(Stamps(on))
    {
    }

    /** Puts one record on the feed. */
    method AddRecord(c: CaptureRecord, ghost on: seq<CaptureRecord>, ghost k: nat)
      requires Linked(on) && Place(on, c.sequence, k) && c.feed == feed && (c in universe || !c.feedBound)
      modifies this`universe, c`feedBound, feed
      ensures Linked(With(on, k, c)) && universe == old(universe) + {c}
      ensures feed.log == old(feed.log) + [Change(|old(feed.log)| + 1, c.sequence, c.revision, Admitted)]
    {
      hide Replay, Numbered, Newest, TableOf;
      RecordIn(on, k, c);
      ReplaySnoc(feed.log, Change(|feed.log| + 1, c.sequence, c.revision, Admitted));
      assert c !in on;
      c.BindChangeFeed();
      universe := universe + {c};
      SameTable(With(on, k, c));
    }

    /** First position at or after `q`, as the ordered map finds it. */
    method FindPlace(q: nat) returns (k: nat)
      requires Sorted(captures)
      ensures k <= |captures|
      ensures forall i :: 0 <= i < k ==> captures[i].sequence < q
      ensures forall i :: k <= i < |captures| ==> captures[i].sequence >= q
    {
      k := 0;
      while k < |captures| && captures[k].sequence < q
        invariant k <= |captures|
        invariant forall i :: 0 <= i < k ==> captures[i].sequence < q
      {
        k := k + 1;
      }
    }

    /** `next_at_or_before`: the newest record no newer than `q`. */
    method NextAtOrBefore(q: nat) returns (r: Option<CaptureRecord>)
      requires Sorted(captures)
      ensures r.None? <==> forall c :: c in captures ==> c.sequence > q
      ensures r.Some? ==>
                && r.value in captures && r.value.sequence <= q
                && forall c :: c in captures && c.sequence <= q ==> c.sequence <= r.value.sequence
    {
      var k := |captures|;
      while k > 0 && captures[k - 1].sequence > q
        invariant 0 <= k <= |captures|
        invariant forall i :: k <= i < |captures| ==> captures[i].sequence > q
      {
        k := k - 1;
      }
      r := if k == 0 then None else Some(captures[k - 1]);
    }

    /** `evict_oldest` */
    method EvictOldest() returns (r: Option<nat>)
      requires Valid()
      modifies this`captures, this`retainedBytes, this`revision, feed,
               captures`captureDisabled, captures`feedBound
      ensures Valid()
      ensures old(captures) == [] ==>
                r.None? && captures == [] && retainedBytes == old(retainedBytes) && revision == old(revision)
                && feed.log == old(feed.log)
      ensures old(captures) != [] ==>
                && var c := old(captures)[0];
                && r == Some(c.sequence) && captures == old(captures)[1..] && c.captureDisabled
                && retainedBytes == Minus(old(retainedBytes), c.retainedBytes) && revision == old(revision) + 1
                && feed.log == old(feed.log) + [Change(|old(feed.log)| + 1, c.sequence, c.revision, RetentionEviction)]
    {
      hide Linked;
      if captures == [] { return None; }
      var c := captures[0];
      assert Without(captures, 0) == captures[1..];
      TotalWithout(captures, 0);
      DropRecord(c, RetentionEviction, captures, 0);
      SameRecords(captures[1..]);
      captures := captures[1..];
      retainedBytes := Minus(retainedBytes, c.retainedBytes);
      revision := revision + 1;
      return Some(c.sequence);
    }

    predicate Within(count: nat, bytes: nat) { count <= maxRecords && bytes <= maxBytes }

    /** `enforce_cached_retention`: evicts the `k` oldest records, for the least `k` that meets
        the policy. There is always such a `k`: an empty store has no bytes to its name. */
    method EnforceRetention() returns (evicted: bool, ghost k: nat)
      requires Valid()
      modifies this`captures, this`retainedBytes, this`revision, feed,
               captures`captureDisabled, captures`feedBound
      ensures Valid() && k <= |old(captures)| && captures == old(captures)[k..]
      ensures retainedBytes == Minus(old(retainedBytes), Bytes(old(Sizes(captures))[..k]))
      ensures Within(|captures|, retainedBytes) && (evicted <==> k > 0) && revision == old(revision) + k
      ensures forall j :: 0 <= j < k ==>
                !Within(|old(captures)| - j, Minus(old(retainedBytes), Bytes(old(Sizes(captures))[..j])))
      ensures feed.log == Removing(old(feed.log), old(Stamps(captures))[..k], RetentionEviction)
    {
      hide Linked, Sum, Removing;
      ghost var sizes, stamps, bytes := Sizes(captures), Stamps(captures), retainedBytes;
      evicted, k := false, 0;
      SumZero<nat>([], Self);
      NothingRemoved(feed.log, RetentionEviction);
      assert sizes[..0] == [] && stamps[..0] == [];
      while |captures| > maxRecords || retainedBytes > maxBytes
        invariant Valid() && k <= |old(captures)| && captures == old(captures)[k..]
        invariant retainedBytes == Minus(bytes, Bytes(sizes[..k]))
        invariant (evicted <==> k > 0) && revision == old(revision) + k
        invariant forall j :: 0 <= j < k ==> !Within(|sizes| - j, Minus(bytes, Bytes(sizes[..j])))
        invariant feed.log == Removing(old(feed.log), old(Stamps(captures))[..k], RetentionEviction)
        decreases |captures|
      {
        if captures == [] { EmptyIsWithin(); }
        ghost var c := captures[0];
        var r := EvictOldest();
        if r == None { break; }
        SumAppend(sizes[..k], sizes[k], Self);
        assert sizes[..k + 1] == sizes[..k] + [sizes[k]];
        assert stamps[..k + 1] == stamps[..k] + [Stamp(c.sequence, c.revision)];
        RemovingOne(old(feed.log), stamps[..k], stamps[k], RetentionEviction);
        evicted, k := true, k + 1;
      }
    }

    lemma EmptyIsWithin()
      requires Valid() && captures == []
      ensures Within(0, retainedBytes)
    {
      SumZero(Sizes(captures), Self);
    }

    /** Takes out the record of sequence `q`, whose place is `k`, if there is one. */
    method TakeOut(q: nat, k: nat) returns (found: bool, ghost displaced: seq<CaptureRecord>)
      requires Valid() && k <= |captures|
      requires forall i :: 0 <= i < k ==> captures[i].sequence < q
      requires forall i :: k <= i < |captures| ==> captures[i].sequence >= q
      modifies this`captures, this`retainedBytes, feed, captures`captureDisabled, captures`feedBound
      ensures Valid() && Place(captures, q, k)
      ensures forall d :: d in captures <==> d in old(captures) && d.sequence != q
      ensures forall d :: d in displaced <==> d in old(captures) && d.sequence == q
      ensures retainedBytes == Minus(old(retainedBytes), Total(displaced))
      ensures |displaced| <= 1 && feed.log == Removing(old(feed.log), Stamps(displaced), ExplicitDelete)
      ensures found <==> displaced != []
      ensures !found ==> captures == old(captures)
    {
      hide Linked, Sum;
      found, displaced := false, [];
      SumZero<nat>([], Self);
      assert Sizes(displaced) == [] && Stamps(displaced) == [];
      Known(captures);
      if k < |captures| && captures[k].sequence == q {
        var replaced := captures[k];
        found, displaced := true, [replaced];
        MembersWithout(captures, k);
        TotalWithout(captures, k);
        SumAppend([], replaced.retainedBytes, Self);
        assert Sizes(displaced) == [] + [replaced.retainedBytes];
        DropRecord(replaced, ExplicitDelete, captures, k);
        SameRecords(Without(captures, k));
        SameRecords(displaced);
        captures := captures[..k] + captures[k + 1..];
        retainedBytes := Minus(retainedBytes, replaced.retainedBytes);
      }
    }

    lemma Known(on: seq<CaptureRecord>)
      requires Linked(on)
      ensures Sorted(on) && forall c :: c in on ==> c in universe && c.feedBound
    {
    }

    /** Puts a record in its place, displacing an older one of the same sequence. */
    method Admit(c: CaptureRecord) returns (ghost displaced: seq<CaptureRecord>, ghost cleared: seq<Change>)
      requires Valid() && c.feed == feed && (c in universe || !c.feedBound)
      modifies this`captures, this`retainedBytes, this`revision, this`universe, feed,
               c`feedBound, captures`captureDisabled, captures`feedBound
      ensures Valid() && universe == old(universe) + {c} && revision == old(revision) + 1
      ensures forall d :: d in captures <==> d == c || (d in old(captures) && d.sequence != c.sequence)
      ensures forall d :: d in displaced <==> d in old(captures) && d.sequence == c.sequence
      ensures retainedBytes == Minus(old(retainedBytes), Total(displaced)) + c.retainedBytes
      ensures |displaced| <= 1 && cleared == Removing(old(feed.log), Stamps(displaced), ExplicitDelete)
      ensures feed.log == cleared + [Change(|cleared| + 1, c.sequence, c.revision, Admitted)]
    {
      hide Linked, Total, Removing;
      Known(captures);
      var k := FindPlace(c.sequence);
      var _, out := TakeOut(c.sequence, k);
      displaced := out;
      cleared := feed.log;
      PutAt(c, k, displaced);
    }

    method PutAt(c: CaptureRecord, k: nat, ghost displaced: seq<CaptureRecord>)
      requires Valid() && c.feed == feed && (c in universe || !c.feedBound) && Place(captures, c.sequence, k)
      modifies this`captures, this`retainedBytes, this`revision, this`universe, feed, c`feedBound
      ensures Valid() && universe == old(universe) + {c} && revision == old(revision) + 1
      ensures forall d :: d in captures <==> d == c || d in old(captures)
      ensures retainedBytes == old(retainedBytes) + c.retainedBytes
      ensures feed.log == old(feed.log) + [Change(|old(feed.log)| + 1, c.sequence, c.revision, Admitted)]
      ensures Total(displaced) == old(Total(displaced)) && Stamps(displaced) == old(Stamps(displaced))
    {
      hide Linked, Total, Sizes, Stamps, TableOf;
      Known(captures);
      TotalWith(captures, k, c);
      RecordIn(captures, k, c);
      AddRecord(c, captures, k);
      SameRecords(With(captures, k, c));
      SameRecords(displaced);
      captures := captures[..k] + [c] + captures[k..];
      retainedBytes := retainedBytes + c.retainedBytes;
      revision := revision + 1;
    }

    /** `insert`: the record goes in, an older one of the same sequence goes out, and then the `k`
        oldest go, for the least `k` that meets the policy. `all` is the store in between. */
    method Insert(c: CaptureRecord)
        returns (evicted: bool, ghost all: seq<CaptureRecord>, ghost displaced: seq<CaptureRecord>, ghost k: nat)
      requires Valid() && c.feed == feed && (c in universe || !c.feedBound)
      modifies this`captures, this`retainedBytes, this`revision, this`universe, feed,
               c`captureDisabled, c`feedBound, captures`captureDisabled, captures`feedBound
      ensures Valid() && universe == old(universe) + {c}
      ensures forall d :: d in all <==> d == c || (d in old(captures) && d.sequence != c.sequence)
      ensures forall d :: d in displaced <==> d in old(captures) && d.sequence == c.sequence
      ensures Sorted(all) && k <= |all| && captures == all[k..] && (evicted <==> k > 0)
      ensures var bytes := Minus(old(retainedBytes), Total(displaced)) + c.retainedBytes;
              && retainedBytes == Minus(bytes, Bytes(Sizes(all)[..k]))
              && Within(|captures|, retainedBytes)
              && forall j :: 0 <= j < k ==> !Within(|all| - j, Minus(bytes, Bytes(Sizes(all)[..j])))
      ensures revision == old(revision) + 1 + k
      ensures |captures| <= maxRecords && retainedBytes <= maxBytes
      ensures |displaced| <= 1
      ensures var cleared := Removing(old(feed.log), Stamps(displaced), ExplicitDelete);
              feed.log == Removing(cleared + [Change(|cleared| + 1, c.sequence, c.revision, Admitted)],
                                   Stamps(all)[..k], RetentionEviction)
    {
      hide Linked, Total, Sum, Removing;
      ghost var cleared;
      displaced, cleared := Admit(c);
      all := captures;
      Known(all);
      label Admitting:
      evicted, k := EnforceRetention();
      SameRecords@Admitting(all);
      SameRecords@Admitting(displaced);
    }

    /** One round of `remove_sequences`; `gone` left in earlier rounds. */
    method RemoveOne(q: nat, ghost gone: seq<CaptureRecord>, ghost bytes: nat, ghost log: seq<Change>)
        returns (found: bool, ghost more: seq<CaptureRecord>)
      requires Valid() && Before(gone, q)
      requires retainedBytes == Minus(bytes, Total(gone)) && feed.log == Removing(log, Stamps(gone), ExplicitDelete)
      modifies this`captures, this`retainedBytes, feed, captures`captureDisabled, captures`feedBound
      ensures Valid() && Before(more, q + 1) && |more| == |gone| + if found then 1 else 0
      ensures !found ==> captures == old(captures)
      ensures forall d :: d in captures <==> d in old(captures) && d.sequence != q
      ensures forall d :: d in more <==> d in gone || (d in old(captures) && d.sequence == q)
      ensures retainedBytes == Minus(bytes, Total(more)) && feed.log == Removing(log, Stamps(more), ExplicitDelete)
    {
      hide Linked, Total, Removing, Stamps;
      Known(captures);
      var k := FindPlace(q);
      ghost var out;
      found, out := TakeOut(q, k);
      SameRecords(gone);
      more := gone + out;
      TotalSplit(gone, out);
      RemovingMore(log, gone, out, ExplicitDelete);
    }

    /** `remove_sequences`: exactly the wanted records go, oldest first, each announced once. */
    method RemoveSequences(sequences: seq<nat>) returns (removed: nat, ghost gone: seq<CaptureRecord>)
      requires Valid()
      modifies this`captures, this`retainedBytes, this`revision, feed,
               captures`captureDisabled, captures`feedBound
      ensures Valid()
      ensures forall d :: d in captures <==> d in old(captures) && d.sequence !in sequences
      ensures forall d :: d in gone <==> d in old(captures) && d.sequence in sequences
      ensures Sorted(gone) && removed == |gone| && (removed == 0 ==> captures == old(captures))
      ensures retainedBytes == Minus(old(retainedBytes), Total(gone))
      ensures revision == old(revision) + if removed > 0 then 1 else 0
      ensures feed.log == Removing(old(feed.log), Stamps(gone), ExplicitDelete)
    {
      hide Linked, Total, Removing, Stamps, Before, Parted;
      NoneGone();
      NothingRemoved(feed.log, ExplicitDelete);
      PartedStart(captures);
      var unique := set q | q in sequences;
      var rest := unique;
      assert unique - rest == {};
      removed, gone := 0, [];
      ghost var bytes, log, floor: nat := retainedBytes, feed.log, 0;
      while rest != {}
        invariant Valid() && rest <= unique && revision == old(revision)
        invariant Parted(old(captures), captures, gone, unique - rest)
        invariant forall i :: 0 <= i < |captures| ==> captures[i] in old(captures)
        invariant Before(gone, floor) && forall q :: q in rest ==> floor <= q
        invariant removed == |gone| && (removed == 0 ==> captures == old(captures))
        invariant retainedBytes == Minus(bytes, Total(gone))
        invariant feed.log == Removing(log, Stamps(gone), ExplicitDelete)
        decreases rest
      {
        var q := Least(rest);
        BeforeMono(gone, floor, q);
        ghost var kept, left := captures, gone;
        var found;
        found, gone := RemoveOne(q, gone, bytes, log);
        PartedStep(old(captures), kept, left, unique - rest, q, captures, gone);
        assert unique - rest + {q} == unique - (rest - {q});
        rest, floor := rest - {q}, q + 1;
        if found {
          removed := removed + 1;
        }
      }
      assert unique - rest == unique;
      PartedAll(old(captures), captures, gone, sequences, floor);
      if removed > 0 {
        revision := revision + 1;
      }
    }

    /** `clear`: every record goes, oldest first. */
    method Clear() returns (removed: nat)
      requires Valid()
      modifies this`captures, this`retainedBytes, this`revision, feed,
               captures`captureDisabled, captures`feedBound
      ensures Valid() && captures == [] && retainedBytes == 0 && removed == |old(captures)|
      ensures revision == old(revision) + if removed > 0 then 1 else 0
      ensures feed.log == Removing(old(feed.log), old(Stamps(captures)), Cleared)
    {
      hide Linked, Total, Removing;
      removed := |captures|;
      ghost var stamps := Stamps(captures);
      NothingRemoved(feed.log, Cleared);
      assert captures[0..] == captures && stamps[..0] == [];
      var i := 0;
      while i < |captures|
        invariant i <= |captures| == removed && captures == old(captures)
        invariant Linked(captures[i..]) && revision == old(revision)
        invariant feed.log == Removing(old(feed.log), stamps[..i], Cleared)
      {
        var c := captures[i];
        assert Without(captures[i..], 0) == captures[i + 1..];
        DropRecord(c, Cleared, captures[i..], 0);
        assert stamps[..i + 1] == stamps[..i] + [Stamp(c.sequence, c.revision)];
        RemovingOne(old(feed.log), stamps[..i], stamps[i], Cleared);
        i := i + 1;
      }
      assert stamps[..i] == stamps && captures[i..] == [];
      NoneGone();
      captures := [];
      retainedBytes := 0;
      if removed > 0 {
        revision := revision + 1;
      }
    }

    /** A handle call touches one record: it changes nothing, or it raises the revision by one and
        announces that if the record is on the feed; sizes only grow. The store stays right. */
    twostate lemma HandleCall(c: CaptureRecord)
      requires old(Valid() && c.feed == feed && (c in universe || !c.feedBound))
      requires captures == old(captures) && retainedBytes == old(retainedBytes) && universe == old(universe)
      requires forall d :: d in universe ==>
                 && d.feedBound == old(d.feedBound) && d.captureDisabled == old(d.captureDisabled)
                 && d.retainedBytes >= old(d.retainedBytes) && (d != c ==> d.revision == old(d.revision))
      requires feed.Valid() && c.feedBound == old(c.feedBound)
      requires || (c.revision == old(c.revision) && feed.log == old(feed.log))
               || (c.revision == old(c.revision) + 1
                   && feed.log == old(feed.log) +
                        if c.feedBound then [Change(|old(feed.log)| + 1, c.sequence, c.revision, RecordUpdated)]
                        else [])
      ensures Valid()
    {
      hide Replay, Numbered, Newest, TableOf, Total;
      SizesGrow(captures);
      if c.revision == old(c.revision) || !c.feedBound {
        assert feed.log == old(feed.log);
        SameTable(captures);
      } else {
        TableMoves(c);
        ReplaySnoc(old(feed.log), Change(|old(feed.log)| + 1, c.sequence, c.revision, RecordUpdated));
      }
    }

    twostate lemma SizesGrow(on: seq<CaptureRecord>)
      requires forall d :: d in on ==> d.retainedBytes >= old(d.retainedBytes)
      ensures Total(on) >= old(Total(on))
    {
      SumMono(old(Sizes(on)), Sizes(on), Self);
    }

    twostate lemma TableMoves(c: CaptureRecord)
      requires captures == old(captures) && Sorted(captures) && c in captures
      requires forall d :: d in captures && d != c ==> d.revision == old(d.revision)
      ensures var t := old(TableOf(captures));
              && c.sequence in t && t[c.sequence] == old(c.revision)
              && TableOf(captures) == t[c.sequence := c.revision]
    {
      var k :| 0 <= k < |captures| && captures[k] == c;
      var stamps := old(Stamps(captures));
      assert Stamps(captures) == stamps[k := Stamp(c.sequence, c.revision)];
      TableAt(stamps, k);
      TableUpdate(stamps, k, c.revision);
    }
  }
}
