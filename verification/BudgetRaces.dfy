/** The shared memory budget under concurrency. Every reservation is a load followed by
    compare-and-swap attempts, every lease is reference counted, every record books what it keeps
    under its own lock, and any number of threads interleave between any two atomic operations. */
module BudgetRaces {
  import opened Basics
  import opened BodyCharge
  import opened HeaderCapture
  import opened Sums

  /** Who keeps a lease alive: a thread working through a record, or a record, its metadata,
      captured headers or a cloned preview. */
  datatype Holder = ByThread(thread: nat) | ByObject(id: nat)

  /** A body as far as it costs anything: bytes kept, chunk nodes made, length of the last block. */
  datatype Half = Half(bytes: nat, nodes: nat, trailing: nat)

  datatype Response = NotSet | Lost | Kept(headers: seq<Header>)

  /** A record's own books: `booked` is its `retained_bytes`, the rest is what it really keeps.
      `lock` is the thread inside the record lock, when that thread stops in the middle. */
  datatype Account = Account(
    booked: nat, request: nat, response: Response, requestBody: Half, responseBody: Half,
    disabled: bool, lock: Option<nat>)
  {
    function Body(side: Side): Half { if side.RequestSide? then requestBody else responseBody }

    function WithBody(side: Side, h: Half): Account {
      if side.RequestSide? then this.(requestBody := h) else this.(responseBody := h)
    }
  }

  datatype Lease = Lease(reserved: nat, holders: set<Holder>, account: Account)

  /** A thread between two atomic operations. `own` is what it reserved as metadata and has
      neither settled in the record nor given back. From `PrefixLoop` to `Booking` it is inside
      the record lock. */
  datatype Thread =
    | Idle
    | Holding(lease: nat, own: nat)
    | ExactLoop(requested: nat, seen: nat)
    | ExactWon(amount: nat)
    | UpToLoop(lease: nat, own: nat, requested: nat, seen: nat)
    | UpToWon(lease: nat, own: nat, amount: nat)
    | PrefixLoop(lease: nat, own: nat, side: Side, requested: nat, seen: nat)
    | PrefixWon(lease: nat, own: nat, side: Side, kept: nat, amount: nat)
    | Booking(lease: nat, own: nat, side: Side, kept: nat, amount: nat)
    | Releasing(lease: nat, own: nat, amount: nat)
    | Dropping(amount: nat)
  {
    predicate HasLease() {
      Holding? || UpToLoop? || UpToWon? || PrefixLoop? || PrefixWon? || Booking? || Releasing?
    }

    predicate Locks() { PrefixLoop? || PrefixWon? || Booking? }
  }

  datatype World = World(layout: Layout, limit: nat, used: nat, leases: seq<Lease>, threads: seq<Thread>)

  datatype Op =
    | LoadExact(requested: nat)
    | CasExact
    | MakeLease
    | Upgrade(lease: nat)
    | CloneTo(id: nat)
    | DropOwnRef
    | DropObject(lease: nat, id: nat)
    | LoadUpTo(requested: nat)
    | CasUpTo
    | AddUpTo
    | LockAndLoad(side: Side, requested: nat)
    | CasPrefix
    | AddPrefix
    | BookAndUnlock
    | Reload
    | Settle(headers: Option<seq<Header>>)
    | Seal(side: Side)
    | Disable
    | SubLease(amount: nat)
    | SubBudget

  // ---------------------------------------------------------------------------------------
  // What the counters should add up to

  function Charged(l: Lease): nat { if l.holders == {} then 0 else l.reserved }

  /** Bytes taken from the budget but in no lease, or no longer in one. */
  function InFlight(t: Thread): nat {
    match t
    case ExactWon(a) => a
    case UpToWon(_, _, a) => a
    case PrefixWon(_, _, _, _, a) => a
    case Releasing(_, _, a) => a
    case Dropping(a) => a
    case _ => 0
  }

  /** Bytes a thread has put into a lease and its record has not booked. */
  function OwedIn(t: Thread, lease: nat): nat {
    if t.HasLease() && t.lease == lease then t.own + if t.Booking? then t.amount else 0 else 0
  }

  function OwedTo(lease: nat): Thread -> nat { t => OwedIn(t, lease) }

  function BodyCost(layout: Layout, h: Half): nat { h.bytes + layout.overhead * h.nodes }

  function ResponseCost(r: Response): nat { if r.Kept? then ResponseBytes(r.headers) else 0 }

  /** Request metadata, response metadata, both bodies and their chunk nodes. */
  function KeptBytes(layout: Layout, a: Account): nat {
    a.request + ResponseCost(a.response) + BodyCost(layout, a.requestBody) + BodyCost(layout, a.responseBody)
  }

  function LeaseTotal(w: World): nat { Sum(w.leases, Charged) }

  function FlightTotal(w: World): nat { Sum(w.threads, InFlight) }

  ghost predicate Conserved(w: World) {
    w.used == LeaseTotal(w) + FlightTotal(w) && w.used <= w.limit
  }

  ghost predicate HoldersOk(w: World) {
    forall t :: 0 <= t < |w.threads| && w.threads[t].HasLease() ==>
      w.threads[t].lease < |w.leases| && ByThread(t) in w.leases[w.threads[t].lease].holders
  }

  /** What is booked and what is owed make up the lease. */
  ghost predicate OwedExactly(w: World) {
    forall l :: 0 <= l < |w.leases| ==>
      w.leases[l].account.booked + Sum(w.threads, OwedTo(l)) == w.leases[l].reserved
  }

  predicate BooksOk(layout: Layout, a: Account) {
    && a.booked == KeptBytes(layout, a)
    && a.requestBody.trailing < layout.chunk && a.responseBody.trailing < layout.chunk
  }

  ghost predicate BooksAllOk(w: World) {
    forall l :: 0 <= l < |w.leases| ==> BooksOk(w.layout, w.leases[l].account)
  }

  /** A thread inside a record lock is the one the lock names, and what it is about to book is
      what its bytes will cost behind the block that is there. */
  predicate LockOk(layout: Layout, t: nat, me: Thread, a: Account) {
    me.Locks() ==>
      && a.lock == Some(t) && a.Body(me.side).trailing < layout.chunk
      && (me.PrefixWon? || me.Booking? ==> me.amount == Cost(layout, a.Body(me.side).trailing, me.kept))
  }

  ghost predicate LocksOk(w: World) {
    forall t :: 0 <= t < |w.threads| && w.threads[t].Locks() && w.threads[t].lease < |w.leases| ==>
      LockOk(w.layout, t, w.threads[t], w.leases[w.threads[t].lease].account)
  }

  ghost predicate Inv(w: World) {
    Conserved(w) && HoldersOk(w) && OwedExactly(w) && BooksAllOk(w) && LocksOk(w)
  }

  // ---------------------------------------------------------------------------------------
  // The steps

  function Room(w: World, seen: nat): nat { if seen <= w.limit then w.limit - seen else 0 }

  function SettledBytes(headers: Option<seq<Header>>): nat {
    if headers.Some? then ResponseBytes(headers.value) else 0
  }

  predicate Enabled(w: World, t: nat, op: Op) {
    t < |w.threads| &&
    var me := w.threads[t];
    (me.HasLease() ==> me.lease < |w.leases|) &&
    match op
    case LoadExact(_) => me.Idle?
    case CasExact => me.ExactLoop?
    case MakeLease => me.ExactWon?
    case Upgrade(l) => me.Idle? && l < |w.leases| && w.leases[l].holders != {}
    case CloneTo(o) => me.Holding? && ByObject(o) !in w.leases[me.lease].holders
    case DropOwnRef => me.Holding? && me.own == 0
    case DropObject(l, o) => me.Idle? && l < |w.leases| && ByObject(o) in w.leases[l].holders
    case LoadUpTo(_) => me.Holding?
    case CasUpTo => me.UpToLoop?
    case AddUpTo => me.UpToWon?
    case LockAndLoad(side, _) =>
      && me.Holding? && w.leases[me.lease].account.lock.None? && !w.leases[me.lease].account.disabled
    case CasPrefix => me.PrefixLoop? && w.leases[me.lease].account.Body(me.side).trailing < w.layout.chunk
    case AddPrefix => me.PrefixWon?
    case BookAndUnlock => me.Booking?
    case Reload => me.ExactLoop? || me.UpToLoop? || me.PrefixLoop?
    case Settle(headers) =>
      && me.Holding? && me.own == SettledBytes(headers) && w.leases[me.lease].account.lock.None?
      && !w.leases[me.lease].account.disabled && w.leases[me.lease].account.response.NotSet?
    case Seal(_) => me.Holding? && w.leases[me.lease].account.lock.None?
    case Disable => me.Holding? && w.leases[me.lease].account.lock.None?
    case SubLease(a) => me.Holding? && a <= me.own && a <= w.leases[me.lease].reserved
    case SubBudget => (me.Releasing? || me.Dropping?) && me.amount <= w.used
  }

  function SetThread(w: World, t: nat, me: Thread): World
    requires t < |w.threads|
  {
    w.(threads := w.threads[t := me])
  }

  function SetLease(w: World, l: nat, lease: Lease): World
    requires l < |w.leases|
  {
    w.(leases := w.leases[l := lease])
  }

  function SetAccount(w: World, l: nat, a: Account): World
    requires l < |w.leases|
  {
    SetLease(w, l, w.leases[l].(account := a))
  }

  /** Letting go of one reference; the last one makes the thread run the lease's destructor. */
  function LetGo(w: World, t: nat, l: nat, h: Holder): World
    requires t < |w.threads| && l < |w.leases|
  {
    var lease := w.leases[l].(holders := w.leases[l].holders - {h});
    SetThread(SetLease(w, l, lease), t, if lease.holders == {} then Dropping(lease.reserved) else Idle)
  }

  /** A new record's books open with its request metadata, which is all its lease holds. */
  function Opened(amount: nat): Account {
    Account(amount, amount, NotSet, Half(0, 0, 0), Half(0, 0, 0), false, None)
  }

  /** The record keeps `kept` more bytes, at the price it reserved for them. */
  function Booked(layout: Layout, a: Account, side: Side, kept: nat, amount: nat): Account {
    var h := a.Body(side);
    a.WithBody(side, Half(h.bytes + kept, h.nodes + Nodes(layout, h.trailing, kept), Left(layout, h.trailing, kept)))
     .(booked := a.booked + amount, lock := None)
  }

  /** The record takes over what a thread reserved for the response it brings. */
  function Settled(a: Account, headers: Option<seq<Header>>): Account {
    a.(booked := a.booked + SettledBytes(headers),
       response := if headers.Some? then Kept(headers.value) else Lost)
  }

  function Sealed(a: Account, side: Side): Account {
    a.WithBody(side, a.Body(side).(trailing := 0))
  }

  function Take(w: World, t: nat, op: Op): World
    requires Enabled(w, t, op)
  {
    var me := w.threads[t];
    match op
    case LoadExact(r) => SetThread(w, t, if r == 0 then ExactWon(0) else ExactLoop(r, w.used))
    case CasExact =>
      if me.seen + me.requested > w.limit then SetThread(w, t, Idle)
      else if w.used == me.seen
      then SetThread(w.(used := me.seen + me.requested), t, ExactWon(me.requested))
      else SetThread(w, t, ExactLoop(me.requested, w.used))
    case MakeLease =>
      SetThread(w.(leases := w.leases + [Lease(me.amount, {ByThread(t)}, Opened(me.amount))]), t,
                Holding(|w.leases|, 0))
    case Upgrade(l) =>
      SetThread(SetLease(w, l, w.leases[l].(holders := w.leases[l].holders + {ByThread(t)})), t, Holding(l, 0))
    case CloneTo(o) =>
      SetLease(w, me.lease, w.leases[me.lease].(holders := w.leases[me.lease].holders + {ByObject(o)}))
    case DropOwnRef => LetGo(w, t, me.lease, ByThread(t))
    case DropObject(l, o) => LetGo(w, t, l, ByObject(o))
    case LoadUpTo(r) => SetThread(w, t, UpToLoop(me.lease, me.own, r, w.used))
    case CasUpTo =>
      var amount := Min(me.requested, Room(w, me.seen));
      if amount == 0 then SetThread(w, t, Holding(me.lease, me.own))
      else if w.used == me.seen
      then SetThread(w.(used := me.seen + amount), t, UpToWon(me.lease, me.own, amount))
      else SetThread(w, t, UpToLoop(me.lease, me.own, me.requested, w.used))
    case AddUpTo =>
      var l := w.leases[me.lease];
      SetThread(SetLease(w, me.lease, l.(reserved := l.reserved + me.amount)), t, Holding(me.lease, me.own + me.amount))
    case LockAndLoad(side, r) =>
      SetThread(SetAccount(w, me.lease, w.leases[me.lease].account.(lock := Some(t))), t,
                PrefixLoop(me.lease, me.own, side, r, w.used))
    case CasPrefix =>
      var trailing := w.leases[me.lease].account.Body(me.side).trailing;
      var kept := Best(w.layout, trailing, me.requested, Room(w, me.seen));
      if kept == 0 then SetThread(w, t, PrefixWon(me.lease, me.own, me.side, 0, 0))
      else if w.used == me.seen
      then SetThread(w.(used := me.seen + Cost(w.layout, trailing, kept)), t,
                     PrefixWon(me.lease, me.own, me.side, kept, Cost(w.layout, trailing, kept)))
      else SetThread(w, t, PrefixLoop(me.lease, me.own, me.side, me.requested, w.used))
    case AddPrefix =>
      var l := w.leases[me.lease];
      SetThread(SetLease(w, me.lease, l.(reserved := l.reserved + me.amount)), t,
                Booking(me.lease, me.own, me.side, me.kept, me.amount))
    case BookAndUnlock =>
      SetThread(SetAccount(w, me.lease, Booked(w.layout, w.leases[me.lease].account, me.side, me.kept, me.amount)), t,
                Holding(me.lease, me.own))
    case Reload => SetThread(w, t, me.(seen := w.used))
    case Settle(headers) =>
      SetThread(SetAccount(w, me.lease, Settled(w.leases[me.lease].account, headers)), t, Holding(me.lease, 0))
    case Seal(side) => SetAccount(w, me.lease, Sealed(w.leases[me.lease].account, side))
    case Disable => SetAccount(w, me.lease, w.leases[me.lease].account.(disabled := true))
    case SubLease(a) =>
      var l := w.leases[me.lease];
      SetThread(SetLease(w, me.lease, l.(reserved := l.reserved - a)), t, Releasing(me.lease, me.own - a, a))
    case SubBudget =>
      SetThread(w.(used := w.used - me.amount), t,
                if me.Releasing? then Holding(me.lease, me.own) else Idle)
  }

  // ---------------------------------------------------------------------------------------
  // Moving one slot

  /** The effect of changing one thread on every sum that mentions threads. */
  lemma ThreadMoves(threads: seq<Thread>, t: nat, me: Thread)
    requires t < |threads|
    ensures Sum(threads[t := me], InFlight) + InFlight(threads[t]) == Sum(threads, InFlight) + InFlight(me)
    ensures forall l :: 0 <= l ==>
              Sum(threads[t := me], OwedTo(l)) + OwedIn(threads[t], l) == Sum(threads, OwedTo(l)) + OwedIn(me, l)
  {
    SumUpdate(threads, t, me, InFlight);
    forall l | 0 <= l
      ensures Sum(threads[t := me], OwedTo(l)) + OwedIn(threads[t], l) == Sum(threads, OwedTo(l)) + OwedIn(me, l)
    {
      SumUpdate(threads, t, me, OwedTo(l));
    }
  }

  /** A step of one thread that leaves the leases alone. */
  lemma ThreadStep(w: World, t: nat, me: Thread, used: nat)
    requires Inv(w) && t < |w.threads|
    requires used + InFlight(w.threads[t]) == w.used + InFlight(me) && used <= w.limit
    requires me.HasLease() ==> w.threads[t].HasLease() && me.lease == w.threads[t].lease
    requires forall l :: 0 <= l ==> OwedIn(me, l) == OwedIn(w.threads[t], l)
    requires me.Locks() ==> me.lease < |w.leases| && LockOk(w.layout, t, me, w.leases[me.lease].account)
    ensures Inv(SetThread(w.(used := used), t, me))
  {
    hide LockOk, BooksOk, OwedIn, InFlight, Charged, Sum;
    ThreadMoves(w.threads, t, me);
    var w' := SetThread(w.(used := used), t, me);
    forall l | 0 <= l < |w'.leases|
      ensures w'.leases[l].account.booked + Sum(w'.threads, OwedTo(l)) == w'.leases[l].reserved
    {
      assert Sum(w'.threads, OwedTo(l)) + OwedIn(w.threads[t], l) == Sum(w.threads, OwedTo(l)) + OwedIn(me, l);
    }
  }

  /** A step of one thread that also changes its lease. */
  lemma LeaseStep(w: World, t: nat, me: Thread, l: nat, lease: Lease)
    requires Inv(w) && t < |w.threads| && l < |w.leases|
    requires Charged(lease) + InFlight(me) == Charged(w.leases[l]) + InFlight(w.threads[t])
    requires me.HasLease() ==> me.lease == l && ByThread(t) in lease.holders
    requires w.threads[t].HasLease() ==> w.threads[t].lease == l
    requires lease.account.booked + OwedIn(me, l) + w.leases[l].reserved
          == w.leases[l].account.booked + OwedIn(w.threads[t], l) + lease.reserved
    requires forall u :: ByThread(u) in w.leases[l].holders && u != t ==> ByThread(u) in lease.holders
    requires BooksOk(w.layout, lease.account)
    requires me.Locks() ==> LockOk(w.layout, t, me, lease.account)
    requires forall u :: u != t && w.leases[l].account.lock == Some(u) ==> lease.account == w.leases[l].account
    ensures Inv(SetThread(SetLease(w, l, lease), t, me))
  {
    ThreadMoves(w.threads, t, me);
    SumUpdate(w.leases, l, lease, Charged);
    LeaseOwed(w, t, me, l, lease);
    LeaseLocks(w, t, me, l, lease);
    hide BooksOk, InFlight, Charged, Sum, OwedExactly, LocksOk, OwedIn;
  }

  lemma LeaseOwed(w: World, t: nat, me: Thread, l: nat, lease: Lease)
    requires OwedExactly(w) && t < |w.threads| && l < |w.leases|
    requires me.HasLease() ==> me.lease == l
    requires w.threads[t].HasLease() ==> w.threads[t].lease == l
    requires lease.account.booked + OwedIn(me, l) + w.leases[l].reserved
          == w.leases[l].account.booked + OwedIn(w.threads[t], l) + lease.reserved
    ensures OwedExactly(SetThread(SetLease(w, l, lease), t, me))
  {
    ThreadMoves(w.threads, t, me);
    hide Sum;
    var w' := SetThread(SetLease(w, l, lease), t, me);
    forall k | 0 <= k < |w'.leases|
      ensures w'.leases[k].account.booked + Sum(w'.threads, OwedTo(k)) == w'.leases[k].reserved
    {
      assert Sum(w'.threads, OwedTo(k)) + OwedIn(w.threads[t], k) == Sum(w.threads, OwedTo(k)) + OwedIn(me, k);
    }
  }

  lemma LeaseLocks(w: World, t: nat, me: Thread, l: nat, lease: Lease)
    requires LocksOk(w) && t < |w.threads| && l < |w.leases|
    requires me.HasLease() ==> me.lease == l
    requires me.Locks() ==> LockOk(w.layout, t, me, lease.account)
    requires forall u :: u != t && w.leases[l].account.lock == Some(u) ==> lease.account == w.leases[l].account
    ensures LocksOk(SetThread(SetLease(w, l, lease), t, me))
  {
    var w' := SetThread(SetLease(w, l, lease), t, me);
    hide Cost;
    forall u | 0 <= u < |w'.threads| && w'.threads[u].Locks() && w'.threads[u].lease < |w'.leases|
      ensures LockOk(w'.layout, u, w'.threads[u], w'.leases[w'.threads[u].lease].account)
    {
      if u != t { assert LockOk(w.layout, u, w.threads[u], w.leases[w.threads[u].lease].account); }
    }
  }

  lemma NewLease(w: World, t: nat, amount: nat)
    requires Inv(w) && t < |w.threads| && w.threads[t] == ExactWon(amount)
    ensures Inv(Take(w, t, MakeLease))
  {
    var lease := Lease(amount, {ByThread(t)}, Opened(amount));
    var me := Holding(|w.leases|, 0);
    ThreadMoves(w.threads, t, me);
    SumAppend(w.leases, lease, Charged);
    NewLeaseOwed(w, t, amount);
    NewLeaseBooks(w, t, amount);
    hide Sum, OwedExactly, LocksOk, BooksAllOk;
  }

  lemma NewLeaseOwed(w: World, t: nat, amount: nat)
    requires OwedExactly(w) && HoldersOk(w) && t < |w.threads| && w.threads[t] == ExactWon(amount)
    ensures OwedExactly(Take(w, t, MakeLease))
  {
    var n := |w.leases|;
    var me := Holding(n, 0);
    var w' := Take(w, t, MakeLease);
    ThreadMoves(w.threads, t, me);
    assert forall u :: 0 <= u < |w.threads| ==> OwedIn(w.threads[u], n) == 0;
    SumZero(w.threads, OwedTo(n));
    hide Sum, Take, HoldersOk;
    assert w'.threads == w.threads[t := me] && w'.leases == w.leases + [Lease(amount, {ByThread(t)}, Opened(amount))]
      by { assert w' == Take(w, t, MakeLease); MadeLease(w, t, amount); }
    forall k | 0 <= k < |w'.leases|
      ensures w'.leases[k].account.booked + Sum(w'.threads, OwedTo(k)) == w'.leases[k].reserved
    {
      assert Sum(w'.threads, OwedTo(k)) + OwedIn(w.threads[t], k) == Sum(w.threads, OwedTo(k)) + OwedIn(me, k);
      assert k < n ==> w'.leases[k] == w.leases[k];
    }
  }

  lemma MadeLease(w: World, t: nat, amount: nat)
    requires t < |w.threads| && w.threads[t] == ExactWon(amount)
    ensures var w', n := Take(w, t, MakeLease), |w.leases|;
            && w'.threads == w.threads[t := Holding(n, 0)] && w'.layout == w.layout
            && w'.leases == w.leases + [Lease(amount, {ByThread(t)}, Opened(amount))]
  {
  }

  lemma NewLeaseBooks(w: World, t: nat, amount: nat)
    requires BooksAllOk(w) && LocksOk(w) && HoldersOk(w) && t < |w.threads| && w.threads[t] == ExactWon(amount)
    ensures BooksAllOk(Take(w, t, MakeLease)) && LocksOk(Take(w, t, MakeLease))
  {
    MadeLease(w, t, amount);
    var w' := Take(w, t, MakeLease);
    hide Take, Cost;
    assert BooksOk(w.layout, Opened(amount));
    forall u | 0 <= u < |w'.threads| && w'.threads[u].Locks() && w'.threads[u].lease < |w'.leases|
      ensures LockOk(w'.layout, u, w'.threads[u], w'.leases[w'.threads[u].lease].account)
    {
      assert u != t && w'.threads[u] == w.threads[u];
      assert LockOk(w.layout, u, w.threads[u], w.leases[w.threads[u].lease].account);
    }
  }

  // ---------------------------------------------------------------------------------------
  // Every step

  /** Amounts on their way back never exceed what the budget has out. */
  lemma FlightWithin(w: World, t: nat)
    requires Inv(w) && t < |w.threads|
    ensures InFlight(w.threads[t]) <= w.used
  {
    SumAtLeast(w.threads, t, InFlight);
  }

  lemma OwedWithin(w: World, t: nat)
    requires Inv(w) && t < |w.threads| && w.threads[t].HasLease()
    ensures OwedIn(w.threads[t], w.threads[t].lease) <= w.leases[w.threads[t].lease].reserved
  {
    SumAtLeast(w.threads, t, OwedTo(w.threads[t].lease));
  }

  /** What a body costs grows by what the new bytes cost behind its last block. */
  lemma BookedOk(layout: Layout, a: Account, side: Side, kept: nat, amount: nat)
    requires BooksOk(layout, a) && amount == Cost(layout, a.Body(side).trailing, kept)
    ensures BooksOk(layout, Booked(layout, a, side, kept, amount))
  {
    var h := a.Body(side);
    LeftBound(layout, h.trailing, kept);
    Distribute(h.nodes, Nodes(layout, h.trailing, kept), layout.overhead);
    hide Nodes, Left;
  }

  predicate ChangesLease(op: Op) {
    || op.Upgrade? || op.CloneTo? || op.DropOwnRef? || op.DropObject? || op.AddUpTo? || op.AddPrefix?
    || op.LockAndLoad? || op.BookAndUnlock? || op.Settle? || op.Seal? || op.Disable? || op.SubLease?
  }

  lemma StepInv(w: World, t: nat, op: Op)
    requires Inv(w) && Enabled(w, t, op)
    ensures Inv(Take(w, t, op))
  {
    if op.MakeLease? {
      NewLease(w, t, w.threads[t].amount);
    } else if ChangesLease(op) {
      if op.Upgrade? || op.CloneTo? || op.DropOwnRef? || op.DropObject? {
        ReferenceStepInv(w, t, op);
      } else if op.LockAndLoad? || op.AddPrefix? || op.BookAndUnlock? {
        BodyStepInv(w, t, op);
      } else if op.AddUpTo? || op.SubLease? {
        MetadataStepInv(w, t, op);
      } else {
        RecordStepInv(w, t, op);
      }
    } else {
      ThreadStepInv(w, t, op);
    }
  }

  lemma ReferenceStepInv(w: World, t: nat, op: Op)
    requires Inv(w) && Enabled(w, t, op) && (op.Upgrade? || op.CloneTo? || op.DropOwnRef? || op.DropObject?)
    ensures Inv(Take(w, t, op))
  {
    hide LeaseTotal, FlightTotal, OwedExactly, Conserved, BooksOk, Cost, Best;
    var l := if op.Upgrade? || op.DropObject? then op.lease else w.threads[t].lease;
    var w' := Take(w, t, op);
    if op.CloneTo? { assert w.threads[t := w.threads[t]] == w.threads; }
    LeaseStep(w, t, w'.threads[t], l, w'.leases[l]);
  }

  lemma BodyStepInv(w: World, t: nat, op: Op)
    requires Inv(w) && Enabled(w, t, op) && (op.LockAndLoad? || op.AddPrefix? || op.BookAndUnlock?)
    ensures Inv(Take(w, t, op))
  {
    hide LeaseTotal, FlightTotal, OwedExactly, Conserved, Cost, Best, Nodes, Left;
    var l := w.threads[t].lease;
    var w' := Take(w, t, op);
    assert LockOk(w.layout, t, w.threads[t], w.leases[l].account);
    if op.BookAndUnlock? {
      BookedOk(w.layout, w.leases[l].account, w.threads[t].side, w.threads[t].kept, w.threads[t].amount);
    }
    hide BooksAllOk;
    LeaseStep(w, t, w'.threads[t], l, w'.leases[l]);
  }

  /** Metadata is reserved, or given back. */
  lemma MetadataStepInv(w: World, t: nat, op: Op)
    requires Inv(w) && Enabled(w, t, op) && (op.AddUpTo? || op.SubLease?)
    ensures Inv(Take(w, t, op))
  {
    hide LeaseTotal, FlightTotal, OwedExactly, Conserved, Cost, Best, Nodes, Left;
    var l := w.threads[t].lease;
    var w' := Take(w, t, op);
    assert BooksOk(w.layout, w'.leases[l].account);
    hide BooksAllOk;
    LeaseStep(w, t, w'.threads[t], l, w'.leases[l]);
  }

  lemma RecordStepInv(w: World, t: nat, op: Op)
    requires Inv(w) && Enabled(w, t, op) && (op.Settle? || op.Seal? || op.Disable?)
    ensures Inv(Take(w, t, op))
  {
    hide LeaseTotal, FlightTotal, OwedExactly, Conserved, Cost, Best, Nodes, Left;
    var l := w.threads[t].lease;
    var w' := Take(w, t, op);
    if op.Seal? || op.Disable? { assert w.threads[t := w.threads[t]] == w.threads; }
    assert BooksOk(w.layout, w'.leases[l].account);
    hide BooksAllOk;
    LeaseStep(w, t, w'.threads[t], l, w'.leases[l]);
  }

  lemma ThreadStepInv(w: World, t: nat, op: Op)
    requires Inv(w) && Enabled(w, t, op) && !op.MakeLease? && !ChangesLease(op)
    ensures Inv(Take(w, t, op))
  {
    hide Cost, Best, LeaseTotal, FlightTotal, OwedExactly;
    var me, w' := w.threads[t], Take(w, t, op);
    if me.HasLease() && me.Locks() {
      assert LockOk(w.layout, t, me, w.leases[me.lease].account);
    }
    if op.CasPrefix? {
      var trailing := w.leases[me.lease].account.Body(me.side).trailing;
      BestFits(w.layout, trailing, me.requested, Room(w, me.seen));
      NothingCosts(w.layout, trailing);
    }
    ThreadStep(w, t, w'.threads[t], w'.used);
  }

  lemma NothingCosts(layout: Layout, trailing: nat)
    requires trailing < layout.chunk
    ensures Cost(layout, trailing, 0) == 0
  {
    Euclid(trailing, 0, trailing, layout.chunk);
  }

  // ---------------------------------------------------------------------------------------
  // Runs

  datatype Turn = Turn(thread: nat, op: Op)

  predicate Legal(w: World, turns: seq<Turn>)
    decreases |turns|
  {
    turns == [] ||
    (Enabled(w, turns[0].thread, turns[0].op) && Legal(Take(w, turns[0].thread, turns[0].op), turns[1..]))
  }

  function Reach(w: World, turns: seq<Turn>): World
    requires Legal(w, turns)
    decreases |turns|
  {
    if turns == [] then w else Reach(Take(w, turns[0].thread, turns[0].op), turns[1..])
  }

  function Start(layout: Layout, limit: nat, threads: nat): World {
    World(layout, limit, 0, [], seq(threads, _ => Idle))
  }

  lemma StartInv(layout: Layout, limit: nat, threads: nat)
    ensures Inv(Start(layout, limit, threads))
  {
    SumZero(Start(layout, limit, threads).threads, InFlight);
  }

  lemma {:induction false} ReachInv(w: World, turns: seq<Turn>)
    requires Inv(w) && Legal(w, turns)
    ensures Inv(Reach(w, turns)) && Reach(w, turns).layout == w.layout && Reach(w, turns).limit == w.limit
    decreases |turns|
  {
    hide Inv, Enabled;
    if turns != [] {
      var w' := Take(w, turns[0].thread, turns[0].op);
      assert w'.layout == w.layout && w'.limit == w.limit;
      hide Take;
      StepInv(w, turns[0].thread, turns[0].op);
      ReachInv(w', turns[1..]);
    }
  }

  /** At every moment of every interleaving: what the budget has out is exactly what the live
      leases hold plus what is in flight, it never exceeds the limit, nobody can give back more
      than was taken, and when nothing is in flight the leases alone account for it. */
  lemma BudgetConserved(layout: Layout, limit: nat, threads: nat, turns: seq<Turn>)
    requires Legal(Start(layout, limit, threads), turns)
    ensures var w := Reach(Start(layout, limit, threads), turns);
            && w.used == Sum(w.leases, Charged) + Sum(w.threads, InFlight)
            && w.used <= limit
            && (forall t :: 0 <= t < |w.threads| ==> InFlight(w.threads[t]) <= w.used)
            && ((forall t :: 0 <= t < |w.threads| ==> InFlight(w.threads[t]) == 0) ==> w.used == Sum(w.leases, Charged))
  {
    var start := Start(layout, limit, threads);
    StartInv(layout, limit, threads);
    hide Legal, Reach;
    ReachInv(start, turns);
    var w := Reach(start, turns);
    forall t | 0 <= t < |w.threads| ensures InFlight(w.threads[t]) <= w.used {
      FlightWithin(w, t);
    }
    if forall t :: 0 <= t < |w.threads| ==> InFlight(w.threads[t]) == 0 {
      SumZero(w.threads, InFlight);
    }
  }

  /** Exact accounting, at every moment of every interleaving: a record's books are the sum of its
      metadata, its bodies and their chunk nodes; its lease holds that and what threads still owe
      it, no more and no less; and when nobody owes it anything the two are equal. */
  lemma AccountsExact(layout: Layout, limit: nat, threads: nat, turns: seq<Turn>, l: nat)
    requires Legal(Start(layout, limit, threads), turns) && l < |Reach(Start(layout, limit, threads), turns).leases|
    ensures var w := Reach(Start(layout, limit, threads), turns);
            var lease := w.leases[l];
            && lease.account.booked == KeptBytes(layout, lease.account)
            && lease.reserved == lease.account.booked + Sum(w.threads, OwedTo(l))
            && ((forall t :: 0 <= t < |w.threads| ==> OwedIn(w.threads[t], l) == 0) ==>
                  lease.account.booked == lease.reserved)
  {
    var start := Start(layout, limit, threads);
    StartInv(layout, limit, threads);
    hide Legal, Reach;
    ReachInv(start, turns);
    var w := Reach(start, turns);
    if forall t :: 0 <= t < |w.threads| ==> OwedIn(w.threads[t], l) == 0 {
      SumZero(w.threads, OwedTo(l));
    }
  }

  /** What a handle keeps of a response when its record's lease got `granted` for it. */
  function KeptOf(headers: seq<Header>, limit: nat, granted: nat): Option<seq<Header>> {
    if granted < RESPONSE_OVERHEAD then None
    else Some(Captured(headers, Min(granted - RESPONSE_OVERHEAD, limit)).headers)
  }

  lemma KeptFits(headers: seq<Header>, limit: nat, granted: nat)
    ensures SettledBytes(KeptOf(headers, limit, granted)) <= granted
    ensures KeptOf(headers, limit, granted).Some? <==> granted >= 64
  {
    hide HeadersBytes, Captured;
    if granted >= RESPONSE_OVERHEAD { CapturedBytes(headers, Min(granted - RESPONSE_OVERHEAD, limit)); }
  }

  lemma CanSubLease(w: World, t: nat, a: nat)
    requires Inv(w) && t < |w.threads| && w.threads[t].Holding? && a <= w.threads[t].own
    ensures Enabled(w, t, SubLease(a))
  {
    OwedWithin(w, t);
    hide OwedExactly, Conserved, BooksAllOk, LocksOk;
  }

  /** Giving back part of what a thread owes, in the two steps it takes. */
  function GivenBack(w: World, t: nat, a: nat): World
    requires Enabled(w, t, SubLease(a)) && Enabled(Take(w, t, SubLease(a)), t, SubBudget)
  {
    Take(Take(w, t, SubLease(a)), t, SubBudget)
  }

  lemma CanGiveBack(w: World, t: nat, a: nat)
    requires Inv(w) && t < |w.threads| && w.threads[t].Holding? && a <= w.threads[t].own
    ensures Enabled(w, t, SubLease(a)) && Enabled(Take(w, t, SubLease(a)), t, SubBudget)
    ensures var me, w' := w.threads[t], GivenBack(w, t, a);
            && Inv(w') && t < |w'.threads| && w'.threads[t] == Holding(me.lease, me.own - a)
            && me.lease < |w.leases| == |w'.leases| && w'.leases[me.lease].account == w.leases[me.lease].account
  {
    hide Conserved, OwedExactly, BooksAllOk, LocksOk;
    CanSubLease(w, t, a);
    StepInv(w, t, SubLease(a));
    var w1 := Take(w, t, SubLease(a));
    FlightWithin(w1, t);
    hide Inv;
    StepInv(w1, t, SubBudget);
  }

  /** A thread can give back all but `cost` of what it reserved, and then owes exactly that, which
      the record takes over or which goes back as well. */
  ghost predicate CanSettle(w: World, t: nat, kept: Option<seq<Header>>, cost: nat)
    requires t < |w.threads| && w.threads[t].Holding? && cost <= w.threads[t].own
  {
    var me := w.threads[t];
    && me.lease < |w.leases|
    && Enabled(w, t, SubLease(me.own - cost))
    && Enabled(Take(w, t, SubLease(me.own - cost)), t, SubBudget)
    && var w' := GivenBack(w, t, me.own - cost);
    && t < |w'.threads| && w'.threads[t] == Holding(me.lease, cost)
    && Enabled(w', t, SubLease(cost))
    && var a := w.leases[me.lease].account;
       a.lock.None? && !a.disabled && a.response.NotSet? ==> Enabled(w', t, Settle(kept))
  }

  /** Whatever a handle was granted for a response, what it keeps costs no more than that; it can
      give the rest back, and then owes exactly what the record would book or it would return. */
  lemma ResponseSettles(w: World, t: nat, headers: seq<Header>, limit: nat)
    requires Inv(w) && t < |w.threads| && w.threads[t].Holding?
    ensures var kept := KeptOf(headers, limit, w.threads[t].own);
            var cost := SettledBytes(kept);
            && cost <= w.threads[t].own && (kept.Some? <==> w.threads[t].own >= 64)
            && CanSettle(w, t, kept, cost)
  {
    hide Inv, Take, SettledBytes, KeptOf;
    var me := w.threads[t];
    var kept := KeptOf(headers, limit, me.own);
    KeptFits(headers, limit, me.own);
    CanGiveBack(w, t, me.own - SettledBytes(kept));
    CanSubLease(GivenBack(w, t, me.own - SettledBytes(kept)), t, SettledBytes(kept));
  }

  predicate Alive(w: World, l: nat) { l < |w.leases| && w.leases[l].holders != {} }

  /** A lease gives its bytes back once: exactly when its last holder lets go, all it has at that
      moment goes on its way back, and from then on nothing can revive or change it. */
  lemma LeaseEndsOnce(w: World, t: nat, op: Op, l: nat)
    requires Inv(w) && Enabled(w, t, op) && l < |w.leases|
    ensures var w' := Take(w, t, op);
            && l < |w'.leases|
            && (!Alive(w, l) ==> w'.leases[l] == w.leases[l])
            && (Alive(w, l) && !Alive(w', l) ==>
                  && (exists h :: w.leases[l].holders == {h})
                  && w'.threads[t] == Dropping(w.leases[l].reserved)
                  && w'.leases[l].reserved == w.leases[l].reserved)
  {
    hide Cost, Best, Conserved, OwedExactly, BooksAllOk, LocksOk, Booked, Settled, Sealed, Opened, Room;
    var w' := Take(w, t, op);
    if Alive(w, l) && !Alive(w', l) {
      var h := if op.DropObject? then ByObject(op.id) else ByThread(t);
      assert w.leases[l].holders == {h};
    }
  }

  /** Whatever happens afterwards, an ended lease stays as it ended: nothing is booked to it and
      nothing of it is given back again. */
  lemma {:induction false} EndedStaysEnded(w: World, turns: seq<Turn>, l: nat)
    requires Inv(w) && Legal(w, turns) && l < |w.leases| && !Alive(w, l)
    ensures var w' := Reach(w, turns);
            l < |w'.leases| && !Alive(w', l) && w'.leases[l] == w.leases[l]
    decreases |turns|
  {
    hide Inv, Take, Enabled;
    if turns != [] {
      StepInv(w, turns[0].thread, turns[0].op);
      LeaseEndsOnce(w, turns[0].thread, turns[0].op, l);
      EndedStaysEnded(Take(w, turns[0].thread, turns[0].op), turns[1..], l);
    }
  }

  /** With every holder gone and every thread done, the whole budget is free again. */
  lemma AllReturned(layout: Layout, limit: nat, threads: nat, turns: seq<Turn>)
    requires Legal(Start(layout, limit, threads), turns)
    ensures var w := Reach(Start(layout, limit, threads), turns);
            && (forall l :: 0 <= l < |w.leases| ==> !Alive(w, l))
            && (forall t :: 0 <= t < |w.threads| ==> w.threads[t].Idle?)
            ==> w.used == 0
  {
    BudgetConserved(layout, limit, threads, turns);
    hide Legal, Reach;
    var w := Reach(Start(layout, limit, threads), turns);
    if (forall l :: 0 <= l < |w.leases| ==> !Alive(w, l)) && (forall t :: 0 <= t < |w.threads| ==> w.threads[t].Idle?) {
      forall l | 0 <= l < |w.leases| ensures Charged(w.leases[l]) == 0 {
        assert !Alive(w, l);
      }
      SumZero(w.threads, InFlight);
      SumZero(w.leases, Charged);
    }
  }
}
