/** What a reservation comes to while others draw on the same budget: between a thread's first load
    and its outcome any number of steps of other threads may happen, and any number of its own
    attempts may fail. */
module BudgetContention {
  import opened Basics
  import opened BodyCharge
  import opened BudgetRaces

  /** The worlds a run goes through. */
  ghost predicate IsRun(ws: seq<World>, turns: seq<Turn>) {
    && |ws| == |turns| + 1
    && forall i :: 0 <= i < |turns| ==>
         && Enabled(ws[i], turns[i].thread, turns[i].op)
         && ws[i + 1] == Take(ws[i], turns[i].thread, turns[i].op)
  }

  /** What is free at one moment. */
  function Free(w: World): nat { Minus(w.limit, w.used) }

  lemma OthersStay(w: World, u: nat, op: Op, t: nat)
    requires Enabled(w, u, op) && t < |w.threads| && t != u
    ensures Take(w, u, op).threads[t] == w.threads[t]
  {
  }

  lemma SameShape(w: World, u: nat, op: Op)
    requires Enabled(w, u, op)
    ensures var w' := Take(w, u, op);
            && w'.limit == w.limit && w'.layout == w.layout && |w'.threads| == |w.threads|
            && |w.leases| <= |w'.leases|
  {
    hide Cost, Best;
  }

  lemma {:induction false} SameThroughout(ws: seq<World>, turns: seq<Turn>, a: nat, b: nat)
    requires IsRun(ws, turns) && a <= b < |ws|
    ensures ws[b].limit == ws[a].limit && ws[b].layout == ws[a].layout && |ws[b].threads| == |ws[a].threads|
  {
    hide Take, Enabled;
    if a < b {
      SameThroughout(ws, turns, a, b - 1);
      SameShape(ws[b - 1], turns[b - 1].thread, turns[b - 1].op);
    }
  }

  // ---------------------------------------------------------------------------------------
  // All or nothing

  /** From moment `a` to moment `b` thread `t` is at one exact reservation: it loads at `a`, and
      `b` is the first moment at which it is through. */
  ghost predicate ExactSpan(ws: seq<World>, turns: seq<Turn>, t: nat, requested: nat, a: nat, b: nat) {
    && IsRun(ws, turns) && a < b < |ws| && t < |ws[a].threads|
    && turns[a] == Turn(t, LoadExact(requested))
    && (forall i :: a < i < b ==> t < |ws[i].threads| && ws[i].threads[t].ExactLoop?)
    && t < |ws[b].threads| && !ws[b].threads[t].ExactLoop?
  }

  lemma ExactStep(w: World, t: nat, op: Op)
    requires Enabled(w, t, op) && (w.threads[t].ExactLoop? || op.LoadExact?)
    ensures var me, w' := w.threads[t], Take(w, t, op);
            var now := w'.threads[t];
            && (me.ExactLoop? <==> !op.LoadExact?)
            && if op.LoadExact? then
              && w'.used == w.used
              && now == if op.requested == 0 then ExactWon(0) else ExactLoop(op.requested, w.used)
            else
              || (now == Idle && w'.used == w.used && me.seen + me.requested > w.limit)
              || (now == ExactWon(me.requested) && w'.used == w.used + me.requested <= w.limit)
              || (now == ExactLoop(me.requested, w.used) && w'.used == w.used)
  {
    hide Best, Cost, Room;
  }

  /** What it goes by is what was used at some moment since it loaded. */
  lemma {:induction false} ExactSeen(ws: seq<World>, turns: seq<Turn>, t: nat, requested: nat, a: nat, b: nat, i: nat)
      returns (m: nat)
    requires ExactSpan(ws, turns, t, requested, a, b) && a < i < b
    ensures a <= m < i && ws[i].threads[t] == ExactLoop(requested, ws[m].used)
  {
    hide Take, Enabled;
    var w, turn := ws[i - 1], turns[i - 1];
    assert Enabled(w, turn.thread, turn.op);
    if i == a + 1 {
      m := a;
      ExactStep(w, t, turn.op);
    } else {
      m := ExactSeen(ws, turns, t, requested, a, b, i - 1);
      if turn.thread != t {
        OthersStay(w, turn.thread, turn.op, t);
      } else {
        ExactStep(w, t, turn.op);
        m := i - 1;
      }
    }
  }

  /** An exact reservation takes all it asked for, at the moment of its outcome, or it is refused;
      and it is refused only if at some moment since it began that much was not free. */
  lemma ExactOutcome(ws: seq<World>, turns: seq<Turn>, t: nat, requested: nat, a: nat, b: nat)
    requires ExactSpan(ws, turns, t, requested, a, b)
    ensures ws[b].threads[t] == ExactWon(requested) || ws[b].threads[t] == Idle
    ensures ws[b].threads[t] == ExactWon(requested) ==>
              ws[b].used == ws[b - 1].used + requested && (requested == 0 || ws[b].used <= ws[b].limit)
    ensures ws[b].threads[t] == Idle ==>
              ws[b].used == ws[b - 1].used && exists m :: a <= m < b && ws[m].used + requested > ws[m].limit
  {
    hide Take, Enabled;
    var w, turn := ws[b - 1], turns[b - 1];
    assert Enabled(w, turn.thread, turn.op);
    if b == a + 1 {
      ExactStep(w, t, turn.op);
    } else {
      var m := ExactSeen(ws, turns, t, requested, a, b, b - 1);
      SameThroughout(ws, turns, m, b - 1);
      SameThroughout(ws, turns, b - 1, b);
      if turn.thread != t { OthersStay(w, turn.thread, turn.op, t); } else { ExactStep(w, t, turn.op); }
    }
  }

  // ---------------------------------------------------------------------------------------
  // As much as there is

  ghost predicate UpToSpan(ws: seq<World>, turns: seq<Turn>, t: nat, requested: nat, a: nat, b: nat) {
    && IsRun(ws, turns) && a < b < |ws| && t < |ws[a].threads|
    && turns[a] == Turn(t, LoadUpTo(requested))
    && (forall i :: a < i < b ==> t < |ws[i].threads| && ws[i].threads[t].UpToLoop?)
    && t < |ws[b].threads| && !ws[b].threads[t].UpToLoop?
  }

  lemma UpToStep(w: World, t: nat, op: Op)
    requires Enabled(w, t, op) && (w.threads[t].UpToLoop? || op.LoadUpTo?)
    ensures var me, w' := w.threads[t], Take(w, t, op);
            var now := w'.threads[t];
            && (me.UpToLoop? <==> !op.LoadUpTo?)
            && if op.LoadUpTo? then
              me.Holding? && w'.used == w.used && now == UpToLoop(me.lease, me.own, op.requested, w.used)
            else
              || (now == Holding(me.lease, me.own) && w'.used == w.used && Min(me.requested, Room(w, me.seen)) == 0)
              || (now == UpToWon(me.lease, me.own, Min(me.requested, Room(w, w.used)))
                  && w'.used == w.used + now.amount)
              || (now == UpToLoop(me.lease, me.own, me.requested, w.used) && w'.used == w.used)
  {
    hide Best, Cost;
  }

  lemma {:induction false} UpToSeen(ws: seq<World>, turns: seq<Turn>, t: nat, requested: nat, a: nat, b: nat, i: nat)
      returns (m: nat)
    requires UpToSpan(ws, turns, t, requested, a, b) && a < i < b
    ensures a <= m < i && ws[a].threads[t].Holding?
    ensures var me := ws[a].threads[t];
            ws[i].threads[t] == UpToLoop(me.lease, me.own, requested, ws[m].used)
  {
    hide Take, Enabled, Room;
    var w, turn := ws[i - 1], turns[i - 1];
    assert Enabled(w, turn.thread, turn.op);
    if i == a + 1 {
      m := a;
      UpToStep(w, t, turn.op);
    } else {
      m := UpToSeen(ws, turns, t, requested, a, b, i - 1);
      if turn.thread != t {
        OthersStay(w, turn.thread, turn.op, t);
      } else {
        UpToStep(w, t, turn.op);
        m := i - 1;
      }
    }
  }

  /** What a thread got out of a reservation on its lease. */
  function Got(me: Thread): nat { if me.UpToWon? then me.amount else 0 }

  /** A reservation of up to so much gets exactly the lesser of that and what was free, at one
      moment since it began; what it gets it takes at the moment of its outcome. */
  lemma UpToOutcome(ws: seq<World>, turns: seq<Turn>, t: nat, requested: nat, a: nat, b: nat)
    requires UpToSpan(ws, turns, t, requested, a, b)
    ensures ws[a].threads[t].Holding?
    ensures var me, now := ws[a].threads[t], ws[b].threads[t];
            && (now == Holding(me.lease, me.own) || now == UpToWon(me.lease, me.own, Got(now)))
            && ws[b].used == ws[b - 1].used + Got(now)
            && exists m :: a <= m < b && Got(now) == Min(requested, Free(ws[m]))
  {
    hide Take, Enabled;
    var w, turn := ws[b - 1], turns[b - 1];
    assert Enabled(w, turn.thread, turn.op);
    if b == a + 1 { UpToStep(w, t, turn.op); }
    var m := UpToSeen(ws, turns, t, requested, a, b, b - 1);
    SameThroughout(ws, turns, m, b - 1);
    if turn.thread != t { OthersStay(w, turn.thread, turn.op, t); } else { UpToStep(w, t, turn.op); }
    assert Got(ws[b].threads[t]) == Min(requested, Free(w)) || Got(ws[b].threads[t]) == Min(requested, Free(ws[m]));
  }

  // ---------------------------------------------------------------------------------------
  // As much of a body as fits

  ghost predicate PrefixSpan(ws: seq<World>, turns: seq<Turn>, t: nat, side: Side, requested: nat, a: nat, b: nat) {
    && IsRun(ws, turns) && Inv(ws[0]) && a < b < |ws| && t < |ws[a].threads|
    && turns[a] == Turn(t, LockAndLoad(side, requested))
    && (forall i :: a < i < b ==> t < |ws[i].threads| && ws[i].threads[t].PrefixLoop?)
    && t < |ws[b].threads| && !ws[b].threads[t].PrefixLoop?
  }

  lemma {:induction false} InvThroughout(ws: seq<World>, turns: seq<Turn>, i: nat)
    requires IsRun(ws, turns) && Inv(ws[0]) && i < |ws|
    ensures Inv(ws[i])
  {
    hide Take, Enabled, Inv;
    if i > 0 {
      InvThroughout(ws, turns, i - 1);
      StepInv(ws[i - 1], turns[i - 1].thread, turns[i - 1].op);
    }
  }

  /** The length of the block a body is filling. */
  function Block(w: World, lease: nat, side: Side): nat
    requires lease < |w.leases|
  {
    w.leases[lease].account.Body(side).trailing
  }

  /** While a thread is inside the record lock nobody else touches the body. */
  lemma BlockStays(w: World, u: nat, op: Op, t: nat, side: Side)
    requires Inv(w) && Enabled(w, u, op) && t < |w.threads| && t != u && w.threads[t].Locks()
    ensures var l := w.threads[t].lease;
            l < |w.leases| <= |Take(w, u, op).leases| && Block(Take(w, u, op), l, side) == Block(w, l, side)
  {
    hide Conserved, OwedExactly, BooksAllOk, Best, Cost;
    var l := w.threads[t].lease;
    assert LockOk(w.layout, t, w.threads[t], w.leases[l].account);
    assert w.threads[u].Locks() && w.threads[u].lease == l ==> LockOk(w.layout, u, w.threads[u], w.leases[l].account);
  }

  lemma PrefixStep(w: World, t: nat, op: Op)
    requires Enabled(w, t, op) && (w.threads[t].PrefixLoop? || op.LockAndLoad?)
    ensures var me, w' := w.threads[t], Take(w, t, op);
            var now := w'.threads[t];
            && me.HasLease() && me.lease < |w.leases| && me.lease < |w'.leases|
            && (forall side :: Block(w', me.lease, side) == Block(w, me.lease, side))
            && if op.LockAndLoad? then
                 me.Holding? && w'.used == w.used && now == PrefixLoop(me.lease, me.own, op.side, op.requested, w.used)
               else
                 || (now == PrefixLoop(me.lease, me.own, me.side, me.requested, w.used) && w'.used == w.used)
                 || (var trailing := Block(w, me.lease, me.side);
                     && trailing < w.layout.chunk && now == PrefixWon(me.lease, me.own, me.side, now.kept, now.amount)
                     && w'.used == w.used + now.amount
                     && (now.kept > 0 ==> me.seen == w.used)
                     && now.kept == Best(w.layout, trailing, me.requested, Room(w, me.seen))
                     && now.amount == Cost(w.layout, trailing, now.kept))
  {
    hide Best, Cost;
    var me := w.threads[t];
    if me.PrefixLoop? && op.CasPrefix? { NothingFits(w.layout, Block(w, me.lease, me.side)); }
  }

  lemma {:induction false} PrefixSeen(ws: seq<World>, turns: seq<Turn>, t: nat, side: Side, requested: nat,
                                      a: nat, b: nat, i: nat) returns (m: nat)
    requires PrefixSpan(ws, turns, t, side, requested, a, b) && a < i < b
    ensures a <= m < i && ws[a].threads[t].Holding?
    ensures var me := ws[a].threads[t];
            && ws[i].threads[t] == PrefixLoop(me.lease, me.own, side, requested, ws[m].used)
            && me.lease < |ws[a].leases| && me.lease < |ws[i].leases|
            && Block(ws[i], me.lease, side) == Block(ws[a], me.lease, side)
  {
    hide Take, Enabled, Room, Inv, Block;
    var w, turn := ws[i - 1], turns[i - 1];
    assert Enabled(w, turn.thread, turn.op);
    if i == a + 1 {
      m := a;
      PrefixStep(w, t, turn.op);
    } else {
      m := PrefixSeen(ws, turns, t, side, requested, a, b, i - 1);
      if turn.thread != t {
        InvThroughout(ws, turns, i - 1);
        OthersStay(w, turn.thread, turn.op, t);
        BlockStays(w, turn.thread, turn.op, t, side);
      } else {
        PrefixStep(w, t, turn.op);
        m := i - 1;
      }
    }
  }

  /** A reservation for body bytes gets exactly the longest prefix whose cost was free at one moment
      since it began, behind the block that was being filled then and still is, and takes exactly
      that cost at the moment of its outcome. */
  lemma PrefixOutcome(ws: seq<World>, turns: seq<Turn>, t: nat, side: Side, requested: nat, a: nat, b: nat)
    requires PrefixSpan(ws, turns, t, side, requested, a, b)
    ensures ws[a].threads[t].Holding? && ws[a].threads[t].lease < |ws[a].leases|
    ensures var me, now, layout := ws[a].threads[t], ws[b].threads[t], ws[b].layout;
            && now.PrefixWon? && now == PrefixWon(me.lease, me.own, side, now.kept, now.amount)
            && ws[b].used == ws[b - 1].used + now.amount && me.lease < |ws[b].leases|
            && var trailing := Block(ws[b], me.lease, side);
            && trailing == Block(ws[a], me.lease, side) < layout.chunk
            && now.amount == Cost(layout, trailing, now.kept)
            && exists m :: a <= m < b && now.kept == Best(layout, trailing, requested, Free(ws[m]))
  {
    hide Take, Enabled, Inv, Block, Best, Cost;
    var w, turn := ws[b - 1], turns[b - 1];
    assert Enabled(w, turn.thread, turn.op);
    if b == a + 1 { PrefixStep(w, t, turn.op); }
    var m := PrefixSeen(ws, turns, t, side, requested, a, b, b - 1);
    SameThroughout(ws, turns, m, b - 1);
    SameThroughout(ws, turns, b - 1, b);
    if turn.thread != t { OthersStay(w, turn.thread, turn.op, t); } else { PrefixStep(w, t, turn.op); }
    assert Free(ws[m]) == Room(w, ws[m].used);
  }

  // ---------------------------------------------------------------------------------------
  // Nobody waits for nothing

  /** What a thread last saw of the budget. */
  predicate Sees(me: Thread, used: nat) {
    (me.ExactLoop? || me.UpToLoop? || me.PrefixLoop?) && me.seen == used
  }

  predicate Tries(me: Thread, op: Op) {
    (me.ExactLoop? && op.CasExact?) || (me.UpToLoop? && op.CasUpTo?) || (me.PrefixLoop? && op.CasPrefix?)
  }

  /** An attempt fails only if the used bytes have changed since the thread looked, so whenever one
      thread has to try again another one has got, or given back, something. (A weak swap that
      fails for no reason is a `Reload`.) */
  lemma OnlyRacesRetry(w: World, t: nat, op: Op)
    requires Enabled(w, t, op) && Tries(w.threads[t], op) && Sees(w.threads[t], w.used)
    ensures var now := Take(w, t, op).threads[t]; !now.ExactLoop? && !now.UpToLoop? && !now.PrefixLoop?
  {
    hide Best, Cost;
  }
}
