/** The permit of one captured exchange: marking a side terminal sets a bit, and whoever sees both
    bits set takes the permit away. The two halves of a mark are separate atomic steps, and any
    number of threads may mark either side any number of times. */
module ExchangePermit {
  import opened Basics

  datatype Thread = Ready | Taking

  datatype World = World(request: bool, response: bool, held: bool, returned: nat, threads: seq<Thread>) {
    predicate Both() { request && response }
  }

  datatype Step = Mark(t: nat, side: Side) | Take(t: nat)

  function Start(threads: nat): World { World(false, false, true, 0, seq(threads, _ => Ready)) }

  predicate Enabled(w: World, s: Step) {
    s.t < |w.threads| && if s.Mark? then w.threads[s.t].Ready? else w.threads[s.t].Taking?
  }

  function Do(w: World, s: Step): World
    requires Enabled(w, s)
  {
    match s
    case Mark(t, side) =>
      var marked := if side.RequestSide? then w.(request := true) else w.(response := true);
      if marked.Both() then marked.(threads := w.threads[t := Taking]) else marked
    case Take(t) =>
      World(w.request, w.response, false, w.returned + if w.held then 1 else 0, w.threads[t := Ready])
  }

  ghost predicate Inv(w: World) {
    && w.returned == (if w.held then 0 else 1)
    && (!w.held ==> w.Both())
    && (forall t :: 0 <= t < |w.threads| && w.threads[t].Taking? ==> w.Both())
    && (w.held && w.Both() ==> exists t :: 0 <= t < |w.threads| && w.threads[t].Taking?)
  }

  lemma StepInv(w: World, s: Step)
    requires Inv(w) && Enabled(w, s)
    ensures Inv(Do(w, s))
  {
    var w' := Do(w, s);
    if w'.held && w'.Both() {
      if w.Both() {
        var t :| 0 <= t < |w.threads| && w.threads[t].Taking?;
        assert w'.threads[t].Taking?;
      } else {
        assert w'.threads[s.t].Taking?;
      }
    }
  }

  predicate Legal(w: World, steps: seq<Step>)
    decreases |steps|
  {
    steps == [] || (Enabled(w, steps[0]) && Legal(Do(w, steps[0]), steps[1..]))
  }

  function Reach(w: World, steps: seq<Step>): World
    requires Legal(w, steps)
    decreases |steps|
  {
    if steps == [] then w else Reach(Do(w, steps[0]), steps[1..])
  }

  lemma {:induction false} ReachInv(w: World, steps: seq<Step>)
    requires Inv(w) && Legal(w, steps)
    ensures Inv(Reach(w, steps))
    decreases |steps|
  {
    if steps != [] {
      StepInv(w, steps[0]);
      ReachInv(Do(w, steps[0]), steps[1..]);
    }
  }

  predicate Marked(steps: seq<Step>, side: Side) {
    exists k :: 0 <= k < |steps| && steps[k].Mark? && steps[k].side == side
  }

  lemma {:induction false} BitsAreMarks(w: World, steps: seq<Step>)
    requires Legal(w, steps)
    ensures Reach(w, steps).request <==> w.request || Marked(steps, RequestSide)
    ensures Reach(w, steps).response <==> w.response || Marked(steps, ResponseSide)
    decreases |steps|
  {
    if steps != [] {
      var rest := steps[1..];
      BitsAreMarks(Do(w, steps[0]), rest);
      forall side ensures Marked(steps, side) <==> (steps[0].Mark? && steps[0].side == side) || Marked(rest, side) {
        if Marked(rest, side) {
          var k :| 0 <= k < |rest| && rest[k].Mark? && rest[k].side == side;
          assert steps[k + 1] == rest[k];
        }
        if k :| 1 <= k < |steps| && steps[k].Mark? && steps[k].side == side { assert rest[k - 1] == steps[k]; }
      }
    }
  }

  /** In every run the permit is returned at most once, never before both sides have been marked
      terminal, and by the time no mark is in flight exactly when both have. */
  lemma PermitReturnsOnce(threads: nat, steps: seq<Step>)
    requires Legal(Start(threads), steps)
    ensures var w := Reach(Start(threads), steps);
            var ended := Marked(steps, RequestSide) && Marked(steps, ResponseSide);
            && w.returned <= 1 && (w.held <==> w.returned == 0)
            && (w.returned == 1 ==> ended)
            && ((forall t :: 0 <= t < |w.threads| ==> w.threads[t].Ready?) ==> (w.returned == 1 <==> ended))
  {
    hide Marked;
    ReachInv(Start(threads), steps);
    BitsAreMarks(Start(threads), steps);
  }
}
