/** What it costs to keep body bytes: one unit a byte, plus a fixed overhead for every chunk
    node the bytes complete. The chunk size and the overhead are left symbolic. */
module BodyCharge {
  import opened Basics

  datatype LayoutData = Layout(chunk: nat, overhead: nat)
  type Layout = l: LayoutData | l.chunk > 0 witness Layout(1, 0)

  /** Nodes completed by `bytes` more bytes behind a trailing block of `trailing` bytes. */
  function Nodes(l: Layout, trailing: nat, bytes: nat): nat { (trailing + bytes) / l.chunk }

  /** The trailing block they leave behind. */
  function Left(l: Layout, trailing: nat, bytes: nat): nat { (trailing + bytes) % l.chunk }

  lemma LeftBound(l: Layout, trailing: nat, bytes: nat)
    ensures Left(l, trailing, bytes) < l.chunk && Left(l, trailing, bytes) <= trailing + bytes
  {
    DivBounds(trailing + bytes, l.chunk);
  }

  function Cost(l: Layout, trailing: nat, bytes: nat): nat {
    bytes + l.overhead * Nodes(l, trailing, bytes)
  }

  predicate Fits(l: Layout, trailing: nat, bytes: nat, requested: nat, available: nat) {
    bytes <= requested && Cost(l, trailing, bytes) <= available
  }

  // ---------------------------------------------------------------------------------------
  // Division facts

  lemma DivUnique(x: nat, n: nat, d: nat)
    requires d > 0 && n * d <= x < (n + 1) * d
    ensures x / d == n
  {
    var q := x / d;
    assert q * d <= x < (q + 1) * d;
    if q < n {
      MulMono(q + 1, n, d);
    } else if n < q {
      MulMono(n + 1, q, d);
    }
  }

  lemma MulMono(a: nat, b: nat, d: nat)
    requires a <= b
    ensures a * d <= b * d
  {
  }

  lemma DivBounds(x: nat, d: nat)
    requires d > 0
    ensures x / d * d <= x < (x / d + 1) * d
    ensures x / d * d + x % d == x && x % d < d
  {
    assert x / d * d + x % d == x;
  }

  lemma DivMono(x: nat, y: nat, d: nat)
    requires d > 0 && x <= y
    ensures x / d <= y / d
  {
    DivBounds(x, d);
    DivBounds(y, d);
    if y / d < x / d {
      MulMono(y / d + 1, x / d, d);
    }
  }

  lemma DivSplit(x: nat, y: nat, d: nat)
    requires d > 0
    ensures (x + y) / d == x / d + (x % d + y) / d
    ensures (x + y) % d == (x % d + y) % d
  {
    var q, p := x / d, (x % d + y) / d;
    DivBounds(x, d);
    DivBounds(x % d + y, d);
    Distribute(q, p, d);
    Euclid(x + y, q + p, (x % d + y) % d, d);
  }

  lemma Euclid(x: nat, n: nat, r: nat, d: nat)
    requires r < d && x == n * d + r
    ensures x / d == n && x % d == r
  {
    Distribute(n, 1, d);
    DivUnique(x, n, d);
    DivBounds(x, d);
  }

  lemma Distribute(a: nat, b: nat, d: nat)
    ensures (a + b) * d == a * d + b * d && d * (a + b) == d * a + d * b
  {
  }

  // ---------------------------------------------------------------------------------------
  // The cost function

  lemma CostMono(l: Layout, trailing: nat, a: nat, b: nat)
    requires a <= b
    ensures Nodes(l, trailing, a) <= Nodes(l, trailing, b)
    ensures b - a + Cost(l, trailing, a) <= Cost(l, trailing, b)
  {
    DivMono(trailing + a, trailing + b, l.chunk);
    MulMono(Nodes(l, trailing, a), Nodes(l, trailing, b), l.overhead);
  }

  /** Keeping bytes in two steps costs what keeping them at once does: the first step's
      remainder is the second step's trailing block. */
  lemma CostAdds(l: Layout, trailing: nat, a: nat, b: nat)
    ensures Nodes(l, trailing, a + b) == Nodes(l, trailing, a) + Nodes(l, Left(l, trailing, a), b)
    ensures Cost(l, trailing, a + b) == Cost(l, trailing, a) + Cost(l, Left(l, trailing, a), b)
    ensures Left(l, trailing, a + b) == Left(l, Left(l, trailing, a), b)
  {
    DivSplit(trailing + a, b, l.chunk);
    var p, q := Nodes(l, trailing, a), Nodes(l, Left(l, trailing, a), b);
    Distribute(p, q, l.overhead);
  }

  // ---------------------------------------------------------------------------------------
  // The search

  /** The largest affordable prefix, by definition: the first that fits, counting down. */
  function Best(l: Layout, trailing: nat, requested: nat, available: nat): nat
    decreases requested
  {
    if requested == 0 || Cost(l, trailing, requested) <= available then requested
    else Best(l, trailing, requested - 1, available)
  }

  lemma {:induction false} BestFits(l: Layout, trailing: nat, requested: nat, available: nat)
    requires trailing < l.chunk
    ensures Fits(l, trailing, Best(l, trailing, requested, available), requested, available)
    ensures forall x :: Best(l, trailing, requested, available) < x <= requested
                        ==> !Fits(l, trailing, x, requested, available)
    decreases requested
  {
    hide Cost;
    NothingFits(l, trailing);
    if requested > 0 && Cost(l, trailing, requested) > available {
      BestFits(l, trailing, requested - 1, available);
      var best := Best(l, trailing, requested - 1, available);
      forall x | best < x <= requested ensures !Fits(l, trailing, x, requested, available) {
        if x < requested { assert !Fits(l, trailing, x, requested - 1, available); }
      }
    }
  }

  lemma NothingFits(l: Layout, trailing: nat)
    requires trailing < l.chunk
    ensures Cost(l, trailing, 0) == 0
  {
    DivUnique(trailing, 0, l.chunk);
  }

  lemma BestIs(l: Layout, trailing: nat, requested: nat, available: nat, r: nat)
    requires trailing < l.chunk && Fits(l, trailing, r, requested, available)
    requires forall x :: r < x <= requested ==> !Fits(l, trailing, x, requested, available)
    ensures Best(l, trailing, requested, available) == r
  {
    hide Cost, Best;
    BestFits(l, trailing, requested, available);
  }

  /** The sizes that complete exactly `nodes` nodes form the interval `[lower, upper]`. */
  lemma NodeInterval(l: Layout, trailing: nat, nodes: nat, x: nat)
    requires trailing < l.chunk
    ensures Nodes(l, trailing, x) == nodes
       <==> nodes * l.chunk - trailing <= x <= (nodes + 1) * l.chunk - trailing - 1
  {
    DivBounds(trailing + x, l.chunk);
    if nodes * l.chunk <= trailing + x < (nodes + 1) * l.chunk {
      DivUnique(trailing + x, nodes, l.chunk);
    }
  }

  /** `body_prefix_charge`: tries every possible number of completed nodes, most first. Zero nodes
      always succeed, so the search never falls off its end. */
  method BodyPrefixCharge(l: Layout, requested: nat, trailing: nat, available: nat)
      returns (retained: nat, charged: nat)
    requires trailing < l.chunk
    ensures retained == Best(l, trailing, requested, available)
    ensures charged == Cost(l, trailing, retained)
  {
    hide Best, Cost, Nodes;
    var maxBytes := Min(requested, available);
    var nodes: nat := (trailing + maxBytes) / l.chunk;
    forall x | Fits(l, trailing, x, requested, available) ensures Nodes(l, trailing, x) <= nodes {
      FitsBound(l, trailing, x, requested, available);
    }
    while true
      invariant forall x :: Fits(l, trailing, x, requested, available) ==> Nodes(l, trailing, x) <= nodes
      decreases nodes
    {
      var overhead := nodes * l.overhead;
      if overhead <= available {
        var lower := if nodes * l.chunk >= trailing then nodes * l.chunk - trailing else 0;
        IntervalOrder(l, trailing, nodes);
        var upper := (nodes + 1) * l.chunk - trailing - 1;
        retained := Min(Min(requested, available - overhead), upper);
        if retained >= lower {
          charged := retained + overhead;
          Accept(l, trailing, requested, available, nodes, retained);
          return;
        }
      }
      NoneWith(l, trailing, requested, available, nodes);
      nodes := nodes - 1;
    }
  }

  lemma IntervalOrder(l: Layout, trailing: nat, nodes: nat)
    requires trailing < l.chunk
    ensures (nodes + 1) * l.chunk >= trailing + 1 && nodes * l.chunk < (nodes + 1) * l.chunk
  {
    MulMono(1, nodes + 1, l.chunk);
    Distribute(nodes, 1, l.chunk);
  }

  lemma FitsBound(l: Layout, trailing: nat, x: nat, requested: nat, available: nat)
    requires Fits(l, trailing, x, requested, available)
    ensures x <= Min(requested, available)
    ensures Nodes(l, trailing, x) <= (trailing + Min(requested, available)) / l.chunk
  {
    DivMono(trailing + x, trailing + Min(requested, available), l.chunk);
  }

  /** The size the search settles for is the best one, and the charge is its cost. */
  lemma Accept(l: Layout, trailing: nat, requested: nat, available: nat, nodes: nat, retained: nat)
    requires trailing < l.chunk && nodes * l.overhead <= available
    requires (nodes + 1) * l.chunk >= trailing + 1
    requires retained == Min(Min(requested, available - nodes * l.overhead), (nodes + 1) * l.chunk - trailing - 1)
    requires nodes * l.chunk - trailing <= retained
    requires forall x :: Fits(l, trailing, x, requested, available) ==> Nodes(l, trailing, x) <= nodes
    ensures Best(l, trailing, requested, available) == retained
    ensures Cost(l, trailing, retained) == retained + nodes * l.overhead
  {
    NodeInterval(l, trailing, nodes, retained);
    forall x | retained < x <= requested ensures !Fits(l, trailing, x, requested, available) {
      NodeInterval(l, trailing, nodes, x);
      CostMono(l, trailing, retained, x);
    }
    BestIs(l, trailing, requested, available, retained);
  }

  /** A node count the search rejects is one no affordable prefix has; zero is never rejected. */
  lemma NoneWith(l: Layout, trailing: nat, requested: nat, available: nat, nodes: nat)
    requires trailing < l.chunk
    requires nodes * l.overhead <= available ==>
               Min(Min(requested, available - nodes * l.overhead), (nodes + 1) * l.chunk - trailing - 1)
               < nodes * l.chunk - trailing
    ensures nodes > 0
    ensures forall x :: Fits(l, trailing, x, requested, available) ==> Nodes(l, trailing, x) != nodes
  {
    Distribute(nodes, 1, l.chunk);
    forall x | Fits(l, trailing, x, requested, available) ensures Nodes(l, trailing, x) != nodes {
      NodeInterval(l, trailing, nodes, x);
    }
  }
}
