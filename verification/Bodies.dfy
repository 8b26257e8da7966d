/** A captured body: a persistent chain of full chunks, a trailing block that is still filling,
    and, once the stream has ended, the sealed last block. */
module Bodies {
  import opened Basics
  import opened Utf8
  import opened BodyCharge

  datatype StreamState = Pending | Streaming | Complete | Failed | StreamCancelled {
    predicate Terminal() { Complete? || Failed? || StreamCancelled? }
  }

  datatype PreviewLimit = PerBodyLimit | TotalMemoryLimit

  datatype Status = Status(
    stream: StreamState,
    observed: nat,
    retained: nat,
    limit: Option<PreviewLimit>,
    error: Option<string>)

  datatype Terminal = Completes | Fails(error: string) | Cancels

  /** The status says that the stream ended, and how. */
  predicate Says(s: Status, t: Terminal) {
    && (s.stream == Complete <==> t == Completes)
    && (s.stream == Failed <==> t.Fails?)
    && (s.stream == StreamCancelled <==> t == Cancels)
    && (t.Fails? ==> s.error == Some(t.error))
  }

  // ---------------------------------------------------------------------------------------
  // The persistent chain

  datatype Chain = Empty | Node(previous: Chain, bytes: seq<byte>, count: nat)

  function Flatten(c: Chain): seq<byte> {
    match c case Empty => [] case Node(p, b, _) => Flatten(p) + b
  }

  function Count(c: Chain): nat { match c case Empty => 0 case Node(_, _, n) => n }

  /** Every node holds exactly one chunk and knows its position. */
  predicate Chunked(l: Layout, c: Chain) {
    match c case Empty => true
    case Node(p, b, n) => Chunked(l, p) && |b| == l.chunk && n == Count(p) + 1
  }

  /** `part` is shared, untouched, inside `c`. */
  predicate Shares(part: Chain, c: Chain) {
    c == part || (c.Node? && Shares(part, c.previous))
  }

  lemma {:induction false} SharesTrans(a: Chain, b: Chain, c: Chain)
    requires Shares(a, b) && Shares(b, c)
    ensures Shares(a, c)
  {
    if c != b { SharesTrans(a, b, c.previous); }
  }

  lemma {:induction false} SharesPrefix(a: Chain, c: Chain)
    requires Shares(a, c)
    ensures Flatten(a) <= Flatten(c)
  {
    if c != a { SharesPrefix(a, c.previous); }
  }

  /** A chain of full chunks and a shorter rest are determined by the bytes they hold. */
  lemma {:induction false} ChainUnique(l: Layout, c1: Chain, t1: seq<byte>, c2: Chain, t2: seq<byte>)
    requires Chunked(l, c1) && Chunked(l, c2) && |t1| < l.chunk && |t2| < l.chunk
    requires Flatten(c1) + t1 == Flatten(c2) + t2
    ensures c1 == c2 && t1 == t2
  {
    ChainLength(l, c1);
    ChainLength(l, c2);
    Euclid(|Flatten(c1) + t1|, Count(c1), |t1|, l.chunk);
    Euclid(|Flatten(c2) + t2|, Count(c2), |t2|, l.chunk);
    SuffixUnique(Flatten(c1), t1, Flatten(c2), t2);
    SameChain(l, c1, c2);
  }

  lemma SuffixUnique(a: seq<byte>, b: seq<byte>, c: seq<byte>, d: seq<byte>)
    requires a + b == c + d && |b| == |d|
    ensures a == c && b == d
  {
    assert a == (a + b)[..|a|] && c == (c + d)[..|a|];
    assert b == (a + b)[|a|..] && d == (c + d)[|a|..];
  }

  lemma {:induction false} ChainLength(l: Layout, c: Chain)
    requires Chunked(l, c)
    ensures |Flatten(c)| == Count(c) * l.chunk
  {
    if c.Node? {
      ChainLength(l, c.previous);
      Distribute(Count(c.previous), 1, l.chunk);
    }
  }

  lemma {:induction false} SameChain(l: Layout, c1: Chain, c2: Chain)
    requires Chunked(l, c1) && Chunked(l, c2) && Flatten(c1) == Flatten(c2)
    ensures c1 == c2
  {
    if c1.Node? && c2.Node? {
      SuffixUnique(Flatten(c1.previous), c1.bytes, Flatten(c2.previous), c2.bytes);
      SameChain(l, c1.previous, c2.previous);
    }
  }

  // ---------------------------------------------------------------------------------------
  // Snapshots

  datatype Preview = Preview(tail: Chain, trailing: seq<byte>, len: nat)

  function Content(p: Preview): seq<byte> { Flatten(p.tail) + p.trailing }

  function Join(chunks: seq<seq<byte>>): seq<byte> {
    if chunks == [] then [] else chunks[0] + Join(chunks[1..])
  }

  lemma {:induction false} JoinAppend(a: seq<seq<byte>>, b: seq<seq<byte>>)
    ensures Join(a + b) == Join(a) + Join(b)
  {
    if a == [] {
      assert a + b == b;
    } else {
      assert (a + b)[1..] == a[1..] + b;
      JoinAppend(a[1..], b);
    }
  }

  lemma JoinOne(chunk: seq<byte>)
    ensures Join([chunk]) == chunk
  {
    assert Join([chunk]) == chunk + Join([chunk][1..]);
  }

  function Reverse<T>(s: seq<T>): seq<T> {
    if s == [] then [] else Reverse(s[1..]) + [s[0]]
  }

  lemma {:induction false} ReverseSnoc<T>(s: seq<T>, x: T)
    ensures Reverse(s + [x]) == [x] + Reverse(s)
  {
    if s == [] {
      assert s + [x] == [x];
    } else {
      assert (s + [x])[1..] == s[1..] + [x];
      ReverseSnoc(s[1..], x);
    }
  }

  /** The chunks seen so far, read backwards, are those of `whole` behind `node`. */
  ghost predicate Collected(whole: Chain, node: Chain, canonical: seq<seq<byte>>) {
    && Depth(node) + |canonical| == Depth(whole)
    && Flatten(node) + Join(Reverse(canonical)) == Flatten(whole)
    && |Reverse(canonical)| == |canonical|
    && (forall i :: 0 <= i < |canonical| ==> Reverse(canonical)[i] == ChunkAt(whole, Depth(node) + i))
    && (forall i :: 0 <= i < Depth(node) ==> ChunkAt(node, i) == ChunkAt(whole, i))
  }

  lemma CollectedStep(whole: Chain, node: Chain, canonical: seq<seq<byte>>)
    requires node.Node? && Collected(whole, node, canonical)
    ensures Collected(whole, node.previous, canonical + [node.bytes])
  {
    ReverseSnoc(canonical, node.bytes);
    var more := [node.bytes] + Reverse(canonical);
    assert more[1..] == Reverse(canonical);
    Assoc(Flatten(node.previous), node.bytes, Join(Reverse(canonical)));
    assert ChunkAt(node, Depth(node) - 1) == node.bytes;
  }

  /** `chunks`: walks the chain from its end and turns the result round. */
  method Chunks(p: Preview) returns (chunks: seq<seq<byte>>)
    ensures Join(chunks) == Content(p)
    ensures p.trailing == [] ==> |chunks| == Depth(p.tail)
    ensures forall i :: 0 <= i < |chunks| && i < Depth(p.tail) ==> chunks[i] == ChunkAt(p.tail, i)
  {
    var canonical: seq<seq<byte>> := [];
    var node := p.tail;
    while node.Node?
      invariant Collected(p.tail, node, canonical)
      decreases node
    {
      CollectedStep(p.tail, node, canonical);
      canonical := canonical + [node.bytes];
      node := node.previous;
    }
    chunks := Reverse(canonical);
    if p.trailing != [] {
      JoinAppend(chunks, [p.trailing]);
      JoinOne(p.trailing);
      chunks := chunks + [p.trailing];
    }
  }

  function Depth(c: Chain): nat { match c case Empty => 0 case Node(p, _, _) => Depth(p) + 1 }

  function ChunkAt(c: Chain, i: nat): seq<byte>
    requires i < Depth(c)
  {
    if i == Depth(c.previous) then c.bytes else ChunkAt(c.previous, i)
  }

  method FlattenPreview(p: Preview) returns (bytes: seq<byte>)
    ensures bytes == Content(p)
  {
    var chunks := Chunks(p);
    bytes := [];
    assert chunks[..0] == [];
    for i := 0 to |chunks|
      invariant bytes == Join(chunks[..i])
    {
      JoinAppend(chunks[..i], [chunks[i]]);
      assert chunks[..i + 1] == chunks[..i] + [chunks[i]];
      JoinOne(chunks[i]);
      bytes := bytes + chunks[i];
    }
    assert chunks[..|chunks|] == chunks;
  }

  // ---------------------------------------------------------------------------------------
  // The body as a value

  datatype Body = Body(status: Status, chained: seq<byte>, trailing: seq<byte>, sealed: Option<seq<byte>>)

  const FRESH: Body := Body(Status(Pending, 0, 0, None, None), [], [], None)

  function Kept(b: Body): seq<byte> {
    b.chained + (if b.sealed.Some? then b.sealed.value else b.trailing)
  }

  /** The trailing block overflows into the chain, one full chunk at a time. */
  function Grow(l: Layout, b: Body, bytes: seq<byte>): Body
    requires |b.trailing| < l.chunk
  {
    var all := b.trailing + bytes;
    LeftBound(l, |b.trailing|, |bytes|);
    var full := |all| - Left(l, |b.trailing|, |bytes|);
    b.(chained := b.chained + all[..full], trailing := all[full..])
  }

  function Seal(b: Body): Body {
    if b.trailing == [] then b else b.(sealed := Some(b.trailing), trailing := [])
  }

  /** What an append asks the budget for, and what it gets with `available` bytes left. */
  function Requested(b: Body, bytes: seq<byte>, perBody: nat): nat {
    if b.status.limit.Some? || b.status.retained >= perBody then 0
    else Min(|bytes|, perBody - b.status.retained)
  }

  function Granted(l: Layout, b: Body, bytes: seq<byte>, perBody: nat, available: nat): nat {
    Best(l, |b.trailing|, Requested(b, bytes, perBody), available)
  }

  function LimitAfter(b: Body, bytes: seq<byte>, requested: nat, retained: nat): Option<PreviewLimit> {
    if b.status.limit.Some? then b.status.limit
    else if retained < requested then Some(TotalMemoryLimit)
    else if requested < |bytes| then Some(PerBodyLimit)
    else None
  }

  predicate Ignored(b: Body, bytes: seq<byte>) { b.status.stream.Terminal() || bytes == [] }

  function Seen(b: Body, bytes: seq<byte>): Body {
    b.(status := b.status.(stream := Streaming, observed := b.status.observed + |bytes|))
  }

  /** `append_body` on one body: the new body and the bytes charged. */
  function Append(l: Layout, b: Body, bytes: seq<byte>, perBody: nat, available: nat, disabled: bool): (Body, nat)
    requires |b.trailing| < l.chunk
  {
    if Ignored(b, bytes) then (b, 0)
    else
      var seen := Seen(b, bytes);
      if disabled then (seen, 0) else
        var kept := Granted(l, b, bytes, perBody, available);
        BestFits(l, |b.trailing|, Requested(b, bytes, perBody), available);
        var grown := Grow(l, seen, bytes[..kept]);
        (grown.(status := seen.status.(
           retained := seen.status.retained + kept,
           limit := LimitAfter(b, bytes, Requested(b, bytes, perBody), kept))),
         Cost(l, |b.trailing|, kept))
  }

  /** `finish_body_at` on one body. */
  function Finish(b: Body, t: Terminal): Body {
    if b.status.stream.Terminal() then b
    else Seal(b.(status := match t
                 case Completes => b.status.(stream := Complete)
                 case Fails(e) => b.status.(stream := Failed, error := Some(e))
                 case Cancels => b.status.(stream := StreamCancelled)))
  }

  /** `set_response_at` puts the response body back to streaming, whatever it was. */
  function Reopen(b: Body): Body { b.(status := b.status.(stream := Streaming)) }

  // ---------------------------------------------------------------------------------------
  // The body as the source keeps it

  class BodyCapture {
    const layout: Layout
    var status: Status
    var tail: Chain
    var trailing: seq<byte>
    var sealed: Option<seq<byte>>

    ghost predicate Valid()
      reads this
    {
      Chunked(layout, tail) && |trailing| < layout.chunk
    }

    function View(): Body
      reads this
    {
      Body(status, Flatten(tail), trailing, sealed)
    }

    constructor (layout: Layout)
      ensures Valid() && View() == FRESH && this.layout == layout
    {
      this.layout := layout;
      status, tail, trailing, sealed := FRESH.status, Empty, [], None;
    }

    /** Creates exactly the nodes that were charged for, and never touches an existing one. */
    method AppendBytes(bytes: seq<byte>)
      requires Valid()
      modifies this`tail, this`trailing
      ensures Valid() && View() == Grow(layout, old(View()), bytes)
      ensures Shares(old(tail), tail)
      ensures Count(tail) == Count(old(tail)) + Nodes(layout, |old(trailing)|, |bytes|)
      ensures |trailing| == Left(layout, |old(trailing)|, |bytes|)
    {
      hide Nodes, Left, Grow;
      ghost var b, n0, t0 := View(), Count(tail), |trailing|;
      var remaining := bytes;
      ghost var done := 0;
      StepNone(layout, t0);
      while remaining != []
        invariant done + |remaining| == |bytes| && remaining == bytes[done..]
        invariant Valid() && Shares(old(tail), tail)
        invariant Flatten(tail) + trailing == b.chained + b.trailing + bytes[..done]
        invariant Count(tail) == n0 + Nodes(layout, t0, done)
        invariant |trailing| == Left(layout, t0, done)
        invariant status == b.status && sealed == b.sealed
        decreases |remaining|
      {
        var available := layout.chunk - |trailing|;
        var take := Min(available, |remaining|);
        StepTake(layout, t0, done, take);
        assert bytes[..done] + remaining[..take] == bytes[..done + take];
        Assoc(Flatten(tail), trailing, remaining[..take]);
        Assoc(b.chained + b.trailing, bytes[..done], remaining[..take]);
        trailing := trailing + remaining[..take];
        remaining := remaining[take..];
        done := done + take;
        if |trailing| == layout.chunk {
          ghost var before := tail;
          tail := Node(tail, trailing, Count(tail) + 1);
          SharesTrans(old(tail), before, tail);
          trailing := [];
        }
      }
      assert bytes[..done] == bytes;
      GrowIs(layout, b, bytes, tail, trailing);
    }

    method SealTrailing()
      requires Valid()
      modifies this`sealed, this`trailing
      ensures Valid() && View() == Seal(old(View())) && tail == old(tail)
    {
      if trailing != [] {
        sealed := Some(trailing);
        trailing := [];
      }
    }

    function Snapshot(): (p: Preview)
      reads this
      ensures Content(p) == Kept(View()) && p.len == View().status.retained
    {
      Preview(tail, if sealed.Some? then sealed.value else trailing, status.retained)
    }
  }

  lemma GrowNothing(l: Layout, b: Body)
    requires |b.trailing| < l.chunk
    ensures Grow(l, b, []) == b
  {
    StepNone(l, |b.trailing|);
    assert b.trailing + [] == b.trailing && b.chained + [] == b.chained;
    assert b.trailing[..0] == [] && b.trailing[0..] == b.trailing;
  }

  lemma StepNone(l: Layout, trailing: nat)
    requires trailing < l.chunk
    ensures Nodes(l, trailing, 0) == 0 && Left(l, trailing, 0) == trailing
  {
    Euclid(trailing, 0, trailing, l.chunk);
  }

  /** Filling the trailing block up, or not quite. */
  lemma StepTake(l: Layout, t0: nat, done: nat, take: nat)
    requires t0 < l.chunk && take <= l.chunk - Left(l, t0, done)
    ensures take + Left(l, t0, done) == l.chunk ==>
              Nodes(l, t0, done + take) == Nodes(l, t0, done) + 1 && Left(l, t0, done + take) == 0
    ensures take + Left(l, t0, done) < l.chunk ==>
              Nodes(l, t0, done + take) == Nodes(l, t0, done) && Left(l, t0, done + take) == Left(l, t0, done) + take
  {
    CostAdds(l, t0, done, take);
    var left := Left(l, t0, done);
    if take + left == l.chunk {
      Euclid(left + take, 1, 0, l.chunk);
    } else {
      Euclid(left + take, 0, left + take, l.chunk);
    }
  }

  /** Any chunked representation of the right bytes is the one `Grow` describes. */
  lemma GrowIs(l: Layout, b: Body, bytes: seq<byte>, tail: Chain, trailing: seq<byte>)
    requires |b.trailing| < l.chunk && |trailing| == Left(l, |b.trailing|, |bytes|)
    requires Flatten(tail) + trailing == b.chained + b.trailing + bytes
    ensures Grow(l, b, bytes) == b.(chained := Flatten(tail), trailing := trailing)
  {
    LeftBound(l, |b.trailing|, |bytes|);
    hide Flatten, Left;
    var full := |b.trailing + bytes| - |trailing|;
    Regroup(b.chained, b.trailing, bytes, full);
    SuffixUnique(b.chained + (b.trailing + bytes)[..full], (b.trailing + bytes)[full..], Flatten(tail), trailing);
  }

  lemma Regroup(a: seq<byte>, b: seq<byte>, c: seq<byte>, k: nat)
    requires k <= |b + c|
    ensures a + (b + c)[..k] + (b + c)[k..] == a + b + c
  {
    assert (b + c)[..k] + (b + c)[k..] == b + c;
    Assoc(a, (b + c)[..k], (b + c)[k..]);
    Assoc(a, b, c);
  }
}
