/** Who keeps a lease alive, exactly, and what a record keeps once it has left its store. */
module BudgetHolders {
  import opened Basics
  import opened BodyCharge
  import opened BudgetRaces
  import opened BudgetContention

  predicate Uses(w: World, t: nat, l: nat) { t < |w.threads| && w.threads[t].HasLease() && w.threads[t].lease == l }

  /** A thread holds the leases it uses and no others, and a record that is locked has not left. */
  ghost predicate Held(w: World) {
    && (forall l, t: nat :: 0 <= l < |w.leases| ==> (ByThread(t) in w.leases[l].holders <==> Uses(w, t, l)))
    && (forall l :: 0 <= l < |w.leases| && w.leases[l].account.lock.Some? ==> !w.leases[l].account.disabled)
  }

  /** Which objects hold a lease: those it was handed to that have not let go. */
  lemma ObjectStep(w: World, t: nat, op: Op, l: nat, o: nat)
    requires Enabled(w, t, op) && l < |w.leases|
    ensures l < |Take(w, t, op).leases|
    ensures ByObject(o) in Take(w, t, op).leases[l].holders <==>
              if op == CloneTo(o) && Uses(w, t, l) then true
              else ByObject(o) in w.leases[l].holders && op != DropObject(l, o)
  {
    hide Cost, Best, Booked, Settled, Sealed, Opened, Room;
  }

  lemma ThreadStep(w: World, t: nat, op: Op, l: nat, u: nat)
    requires HoldersOk(w) && Enabled(w, t, op) && l < |w.leases|
    requires ByThread(u) in w.leases[l].holders <==> Uses(w, u, l)
    ensures l < |Take(w, t, op).leases|
    ensures ByThread(u) in Take(w, t, op).leases[l].holders <==> Uses(Take(w, t, op), u, l)
  {
    hide Cost, Best, Booked, Settled, Sealed, Opened, Room;
  }

  lemma NewStep(w: World, t: nat, op: Op, l: nat, u: nat)
    requires HoldersOk(w) && Enabled(w, t, op) && |w.leases| <= l < |Take(w, t, op).leases|
    ensures op.MakeLease? && l == |w.leases|
    ensures ByThread(u) in Take(w, t, op).leases[l].holders <==> Uses(Take(w, t, op), u, l)
    ensures var a := Take(w, t, op).leases[l].account; !a.disabled && a.lock.None?
  {
    hide Cost, Best, Room;
  }

  /** A record that left its store keeps what it has, and nothing more. */
  lemma LeftStep(w: World, t: nat, op: Op, l: nat)
    requires Inv(w) && Held(w) && Enabled(w, t, op) && l < |w.leases|
    ensures var was := w.leases[l].account;
            && l < |Take(w, t, op).leases|
            && var now := Take(w, t, op).leases[l].account;
            && (was.disabled || (op.Disable? && Uses(w, t, l)) ==> now.disabled)
            && (was.disabled ==> now.booked == was.booked && KeptBytes(w.layout, now) == KeptBytes(w.layout, was))
            && (now.lock.Some? ==> !now.disabled)
  {
    hide Cost, Best, Conserved, OwedExactly, BooksAllOk, Room;
    var me := w.threads[t];
    assert me.Locks() ==> LockOk(w.layout, t, me, w.leases[me.lease].account);
  }

  lemma HeldStep(w: World, t: nat, op: Op)
    requires Inv(w) && Held(w) && Enabled(w, t, op)
    ensures Held(Take(w, t, op))
  {
    var w' := Take(w, t, op);
    forall l, u: nat | 0 <= l < |w'.leases| ensures ByThread(u) in w'.leases[l].holders <==> Uses(w', u, l) {
      if l < |w.leases| { ThreadStep(w, t, op, l, u); } else { NewStep(w, t, op, l, u); }
    }
    forall l | 0 <= l < |w'.leases| && w'.leases[l].account.lock.Some? ensures !w'.leases[l].account.disabled {
      if l < |w.leases| { LeftStep(w, t, op, l); } else { NewStep(w, t, op, l, 0); }
    }
    hide Inv, Take, Enabled;
  }

  lemma {:induction false} HeldThroughout(ws: seq<World>, turns: seq<Turn>, i: nat)
    requires IsRun(ws, turns) && Inv(ws[0]) && Held(ws[0]) && i < |ws|
    ensures Inv(ws[i]) && Held(ws[i])
  {
    hide Inv, Held, Take, Enabled;
    if i > 0 {
      HeldThroughout(ws, turns, i - 1);
      StepInv(ws[i - 1], turns[i - 1].thread, turns[i - 1].op);
      HeldStep(ws[i - 1], turns[i - 1].thread, turns[i - 1].op);
    }
  }

  lemma StartHeld(layout: Layout, limit: nat, threads: nat)
    ensures Inv(Start(layout, limit, threads)) && Held(Start(layout, limit, threads))
  {
    StartInv(layout, limit, threads);
  }

  /** In every run a lease is alive exactly as long as some thread uses it or some object it was
      handed to has not let go. */
  lemma AliveExactly(layout: Layout, limit: nat, threads: nat, ws: seq<World>, turns: seq<Turn>, i: nat, l: nat)
    requires IsRun(ws, turns) && ws[0] == Start(layout, limit, threads) && i < |ws| && l < |ws[i].leases|
    ensures Alive(ws[i], l) <==>
              || (exists t: nat :: Uses(ws[i], t, l))
              || (exists o :: ByObject(o) in ws[i].leases[l].holders)
  {
    StartHeld(layout, limit, threads);
    HeldThroughout(ws, turns, i);
    hide Inv, IsRun;
    var holders := ws[i].leases[l].holders;
    if h :| h in holders {
      match h
      case ByThread(t) => assert Uses(ws[i], t, l);
      case ByObject(o) => assert ByObject(o) in holders;
    }
    if t: nat :| Uses(ws[i], t, l) { assert ByThread(t) in holders; }
  }

  /** In every run, once a record has left its store what it keeps and books stays the same. */
  lemma {:induction false} LeftKeeps(layout: Layout, limit: nat, threads: nat, ws: seq<World>, turns: seq<Turn>,
                                     i: nat, j: nat, l: nat)
    requires IsRun(ws, turns) && ws[0] == Start(layout, limit, threads) && i <= j < |ws| && l < |ws[i].leases|
    requires ws[i].leases[l].account.disabled
    ensures l < |ws[j].leases|
    ensures var was, now := ws[i].leases[l].account, ws[j].leases[l].account;
            now.disabled && now.booked == was.booked && KeptBytes(ws[i].layout, now) == KeptBytes(ws[i].layout, was)
  {
    hide Take, Enabled, Inv, Held, KeptBytes;
    if i < j {
      LeftKeeps(layout, limit, threads, ws, turns, i, j - 1, l);
      StartHeld(layout, limit, threads);
      HeldThroughout(ws, turns, j - 1);
      SameThroughout(ws, turns, i, j - 1);
      LeftStep(ws[j - 1], turns[j - 1].thread, turns[j - 1].op, l);
    }
  }
}
