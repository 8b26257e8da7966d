/** Rewriting a configuration without changing what it says: entries of the previous file that
    make no difference are put back, and mappings take the previous order. */
module SettingsPreserve {
  import opened Basics
  import opened YamlValues
  import opened SettingsMerge
  import opened SettingsOrder

  // ---------------------------------------------------------------------------------------
  // Nothing lost, nothing invented

  function ChildAt(p: Option<Meaning>, k: string): Option<Meaning> {
    if p.Some? && p.value.Table? && k in p.value.entries then Some(p.value.entries[k]) else None
  }

  function ItemAt(p: Option<Meaning>, i: nat): Option<Meaning> {
    if p.Some? && p.value.List? && i < |p.value.items| then Some(p.value.items[i]) else None
  }

  /** `r` has everything `v` has, and whatever it has besides stood in `p` at the same place. */
  predicate Extends(v: Meaning, r: Meaning, p: Option<Meaning>)
    decreases v
  {
    match v
    case Leaf(_) => r == v
    case List(items) =>
      && r.List? && |r.items| == |items|
      && forall i :: 0 <= i < |items| ==> Extends(items[i], r.items[i], ItemAt(p, i))
    case Table(entries) =>
      && r.Table?
      && (forall k :: k in entries ==> k in r.entries && Extends(entries[k], r.entries[k], ChildAt(p, k)))
      && (forall k :: k in r.entries && k !in entries ==> ChildAt(p, k) == Some(r.entries[k]))
  }

  lemma {:induction false} ExtendsSelf(v: Meaning, p: Option<Meaning>)
    ensures Extends(v, v, p)
    decreases v
  {
    match v
    case Leaf(_) =>
    case List(items) =>
      forall i | 0 <= i < |items| ensures Extends(items[i], items[i], ItemAt(p, i)) {
        ExtendsSelf(items[i], ItemAt(p, i));
      }
    case Table(entries) =>
      forall k | k in entries ensures Extends(entries[k], entries[k], ChildAt(p, k)) {
        ExtendsSelf(entries[k], ChildAt(p, k));
      }
  }

  function InsertMeaning(r: Meaning, path: seq<Segment>, key: string, m: Meaning): Option<Meaning>
    decreases path
  {
    if path == [] then if r.Table? then Some(Table(r.entries[key := m])) else None
    else if path[0].Key? then
      var k := path[0].key;
      if !r.Table? || k !in r.entries then None
      else
        var child := InsertMeaning(r.entries[k], path[1..], key, m);
        if child.None? then None else Some(Table(r.entries[k := child.value]))
    else
      var i := path[0].index;
      if !r.List? || i >= |r.items| then None
      else
        var child := InsertMeaning(r.items[i], path[1..], key, m);
        if child.None? then None else Some(List(r.items[i := child.value]))
  }

  lemma {:induction false} InsertAtMeans(v: Value, path: seq<Segment>, key: string, value: Value)
    requires WellFormed(v) && WellFormed(value)
    ensures var a, b := InsertAt(v, path, key, value), InsertMeaning(MeaningOf(v), path, key, MeaningOf(value));
            (a.None? <==> b.None?) && (a.Some? ==> WellFormed(a.value) && MeaningOf(a.value) == b.value)
    decreases path
  {
    if path == [] {
      if v.Mapping? { InsertMeans(v.entries, key, value); }
    } else if path[0].Key? {
      if v.Mapping? {
        MappingMeans(v.entries, path[0].key);
        var i := Find(v.entries, path[0].key);
        if i.Some? {
          InsertAtMeans(v.entries[i.value].value, path[1..], key, value);
          var child := InsertAt(v.entries[i.value].value, path[1..], key, value);
          if child.Some? {
            InsertMeans(v.entries, path[0].key, child.value);
          }
        }
      }
    } else if v.Sequence? && path[0].index < |v.items| {
      var i := path[0].index;
      InsertAtMeans(v.items[i], path[1..], key, value);
      var child := InsertAt(v.items[i], path[1..], key, value);
      if child.Some? {
        ItemMeans(v.items, i, child.value);
      }
    }
  }

  /** `v` lacks, at the end of `path`, the entry that `p` has there. */
  predicate Lacks(v: Meaning, p: Meaning, path: seq<Segment>, key: string, m: Meaning)
    decreases path
  {
    if path == [] then
      v.Table? && p.Table? && key !in v.entries && key in p.entries && p.entries[key] == m
    else if path[0].Key? then
      var k := path[0].key;
      && v.Table? && p.Table? && k in v.entries && k in p.entries
      && Lacks(v.entries[k], p.entries[k], path[1..], key, m)
    else
      var i := path[0].index;
      && v.List? && p.List? && i < |v.items| && i < |p.items|
      && Lacks(v.items[i], p.items[i], path[1..], key, m)
  }

  predicate Real(c: Value, p: Value, m: Miss)
    requires WellFormed(c) && WellFormed(p)
  {
    WellFormed(m.value) && Lacks(MeaningOf(c), MeaningOf(p), m.path, m.key, MeaningOf(m.value))
  }

  /** Only entries that really are missing are collected. */
  lemma {:induction false} MissesAreReal(c: Value, p: Value)
    requires WellFormed(c) && WellFormed(p)
    ensures forall k :: 0 <= k < |Missing(c, p)| ==> Real(c, p, Missing(c, p)[k])
    decreases p, Size(p) + 1
  {
    if c.Mapping? && p.Mapping? {
      KeyMissesAreReal(c, p, |p.entries|);
    } else if c.Sequence? && p.Sequence? {
      ItemMissesAreReal(c, p, Min(|p.items|, |c.items|));
    }
  }

  lemma {:induction false} KeyMissesAreReal(c: Value, p: Value, n: nat)
    requires c.Mapping? && WellFormed(c) && p.Mapping? && WellFormed(p) && n <= |p.entries|
    ensures forall k :: 0 <= k < |MissingKeys(c.entries, p, n)| ==> Real(c, p, MissingKeys(c.entries, p, n)[k])
    decreases p, n
  {
    hide Missing, MeaningOf, Lacks;
    if n > 0 {
      KeyMissesAreReal(c, p, n - 1);
      var e, i := p.entries[n - 1], Find(c.entries, p.entries[n - 1].key);
      if i.Some? {
        var child := c.entries[i.value].value;
        MissesAreReal(child, e.value);
        var under := Under(Key(e.key), Missing(child, e.value));
        forall k | 0 <= k < |under| ensures Real(c, p, under[k]) {
          RealUnderKey(c, p, n - 1, i.value, Missing(child, e.value)[k]);
        }
      } else {
        RealHere(c, p, n - 1);
      }
    }
  }

  lemma RealHere(c: Value, p: Value, n: nat)
    requires c.Mapping? && WellFormed(c) && p.Mapping? && WellFormed(p) && n < |p.entries|
    requires Find(c.entries, p.entries[n].key).None?
    ensures Real(c, p, Miss([], p.entries[n].key, p.entries[n].value))
  {
    FindAt(p.entries, n);
    MappingMeans(c.entries, p.entries[n].key);
    MappingMeans(p.entries, p.entries[n].key);
  }

  lemma RealUnderKey(c: Value, p: Value, n: nat, i: nat, m: Miss)
    requires c.Mapping? && WellFormed(c) && p.Mapping? && WellFormed(p) && n < |p.entries| && i < |c.entries|
    requires c.entries[i].key == p.entries[n].key && Real(c.entries[i].value, p.entries[n].value, m)
    ensures Real(c, p, Miss([Key(p.entries[n].key)] + m.path, m.key, m.value))
  {
    FindAt(p.entries, n);
    FindAt(c.entries, i);
    MappingMeans(c.entries, p.entries[n].key);
    MappingMeans(p.entries, p.entries[n].key);
    assert ([Key(p.entries[n].key)] + m.path)[1..] == m.path;
  }

  lemma {:induction false} ItemMissesAreReal(c: Value, p: Value, n: nat)
    requires c.Sequence? && WellFormed(c) && p.Sequence? && WellFormed(p) && n <= |p.items| && n <= |c.items|
    ensures forall k :: 0 <= k < |MissingItems(c.items, p, n)| ==> Real(c, p, MissingItems(c.items, p, n)[k])
    decreases p, n
  {
    hide Missing, MeaningOf, Lacks;
    if n > 0 {
      ItemMissesAreReal(c, p, n - 1);
      var misses := Missing(c.items[n - 1], p.items[n - 1]);
      MissesAreReal(c.items[n - 1], p.items[n - 1]);
      var under := Under(Index(n - 1), misses);
      forall k | 0 <= k < |misses| ensures Real(c, p, under[k]) {
        RealUnderIndex(c, p, n - 1, misses[k]);
      }
    }
  }

  lemma RealUnderIndex(c: Value, p: Value, i: nat, m: Miss)
    requires c.Sequence? && WellFormed(c) && p.Sequence? && WellFormed(p) && i < |p.items| && i < |c.items|
    requires Real(c.items[i], p.items[i], m)
    ensures Real(c, p, Miss([Index(i)] + m.path, m.key, m.value))
  {
    assert ([Index(i)] + m.path)[1..] == m.path;
  }

  /** A missing entry can be inserted into any extension, which stays one. */
  lemma {:induction false} ExtendsInsert(
      v: Meaning, r: Meaning, p: Meaning, path: seq<Segment>, key: string, m: Meaning)
    requires Extends(v, r, Some(p)) && Lacks(v, p, path, key, m)
    ensures InsertMeaning(r, path, key, m).Some? && Extends(v, InsertMeaning(r, path, key, m).value, Some(p))
    decreases path
  {
    if path != [] {
      if path[0].Key? {
        var k := path[0].key;
        ExtendsInsert(v.entries[k], r.entries[k], p.entries[k], path[1..], key, m);
      } else {
        var i := path[0].index;
        ExtendsInsert(v.items[i], r.items[i], p.items[i], path[1..], key, m);
      }
    }
  }

  /** An extension, as a value. */
  ghost predicate Grown(value: Value, previous: Value, v: Value)
    requires WellFormed(value) && WellFormed(previous)
  {
    WellFormed(v) && Extends(MeaningOf(value), MeaningOf(v), Some(MeaningOf(previous)))
  }

  lemma GrowOne(value: Value, previous: Value, v: Value, m: Miss)
    requires WellFormed(value) && WellFormed(previous) && Grown(value, previous, v) && Real(value, previous, m)
    ensures var r := InsertAt(v, m.path, m.key, m.value);
            r.Some? && Grown(value, previous, r.value)
  {
    hide MeaningOf, InsertAt, InsertMeaning, Extends, Lacks;
    InsertAtMeans(v, m.path, m.key, m.value);
    ExtendsInsert(MeaningOf(value), MeaningOf(v), MeaningOf(previous), m.path, m.key, MeaningOf(m.value));
  }

  lemma {:induction false} GrowAll(value: Value, previous: Value, misses: seq<Miss>)
    requires WellFormed(value) && WellFormed(previous)
    requires forall k :: 0 <= k < |misses| ==> Real(value, previous, misses[k])
    ensures InsertAll(value, misses).Some? && Grown(value, previous, InsertAll(value, misses).value)
  {
    hide Real, InsertAt, Extends;
    if misses == [] {
      ExtendsSelf(MeaningOf(value), Some(MeaningOf(previous)));
    } else {
      GrowAll(value, previous, misses[..|misses| - 1]);
      GrowOne(value, previous, InsertAll(value, misses[..|misses| - 1]).value, misses[|misses| - 1]);
    }
  }

  /** Inserts every collected entry, or stops at the first that does not fit. */
  method InsertBatch(value: Value, missing: seq<Miss>) returns (batch: Value, all: bool)
    ensures all == InsertAll(value, missing).Some? && (all ==> Some(batch) == InsertAll(value, missing))
  {
    hide InsertAt;
    batch, all := value, true;
    var i := 0;
    while i < |missing|
      invariant 0 <= i <= |missing| && Some(batch) == InsertAll(value, missing[..i])
    {
      var m := missing[i];
      assert missing[..i + 1][..i] == missing[..i];
      var next := InsertAt(batch, m.path, m.key, m.value);
      if next.None? {
        StaysNone(value, missing, i + 1);
        return batch, false;
      }
      batch := next.value;
      i := i + 1;
    }
    assert missing[..i] == missing;
  }

  lemma {:induction false} StaysNone(value: Value, missing: seq<Miss>, i: nat)
    requires i <= |missing| && InsertAll(value, missing[..i]).None?
    ensures InsertAll(value, missing).None?
    decreases |missing|
  {
    if i == |missing| {
      assert missing[..i] == missing;
    } else {
      assert missing[..|missing| - 1][..i] == missing[..i];
      StaysNone(value, missing[..|missing| - 1], i);
    }
  }

  // ---------------------------------------------------------------------------------------
  // Which entries come back

  /** What `Miss` means: where an entry is missing, and what it says. */
  datatype Gap = Gap(path: seq<Segment>, key: string, meaning: Meaning)

  function Gaps(misses: seq<Miss>): (r: seq<Gap>)
    requires forall k :: 0 <= k < |misses| ==> WellFormed(misses[k].value)
    ensures |r| == |misses|
    ensures forall k :: 0 <= k < |misses| ==> r[k] == Gap(misses[k].path, misses[k].key, MeaningOf(misses[k].value))
  {
    seq(|misses|, k requires 0 <= k < |misses| => Gap(misses[k].path, misses[k].key, MeaningOf(misses[k].value)))
  }

  function Patch(v: Meaning, g: Gap): Meaning {
    var r := InsertMeaning(v, g.path, g.key, g.meaning);
    if r.Some? then r.value else v
  }

  /** `v` with those of the first gaps filled that `taken` says. */
  function Patched(v: Meaning, gaps: seq<Gap>, taken: seq<bool>): Meaning
    requires |taken| <= |gaps|
    decreases |taken|
  {
    if taken == [] then v
    else
      var n := |taken| - 1;
      var before := Patched(v, gaps, taken[..n]);
      if taken[n] then Patch(before, gaps[n]) else before
  }

  /** With which gaps filled the settings are the ones wanted. */
  ghost function Accepts<S>(v: Meaning, gaps: seq<Gap>, settings: S, parse: Meaning -> Option<S>): seq<bool> -> bool {
    taken => |taken| <= |gaps| && parse(Patched(v, gaps, taken)) == Some(settings)
  }

  function All(n: nat): (r: seq<bool>)
    ensures |r| == n && forall k :: 0 <= k < n ==> r[k]
  {
    seq(n, k => true)
  }

  /** Every gap is filled or left in turn: filled exactly when that is accepted on top of what was
      filled before. */
  predicate InTurn(accepts: seq<bool> -> bool, taken: seq<bool>) {
    forall k :: 0 <= k < |taken| ==> (taken[k] <==> accepts(taken[..k] + [true]))
  }

  /** Which gaps are filled: all of them if that is accepted, else each in turn. */
  predicate Chosen(accepts: seq<bool> -> bool, taken: seq<bool>) {
    if accepts(All(|taken|)) then taken == All(|taken|) else InTurn(accepts, taken)
  }

  /** A choice is determined by what it chooses from. */
  lemma ChosenOnce(accepts: seq<bool> -> bool, a: seq<bool>, b: seq<bool>)
    requires |a| == |b| && Chosen(accepts, a) && Chosen(accepts, b)
    ensures a == b
  {
    if !accepts(All(|a|)) {
      SameTurns(accepts, a, b, |a|);
      assert a[..|a|] == a && b[..|b|] == b;
    }
  }

  lemma {:induction false} SameTurns(accepts: seq<bool> -> bool, a: seq<bool>, b: seq<bool>, n: nat)
    requires InTurn(accepts, a) && InTurn(accepts, b) && n <= |a| == |b|
    ensures a[..n] == b[..n]
  {
    if n > 0 {
      SameTurns(accepts, a, b, n - 1);
      assert a[n - 1] == b[n - 1];
      assert a[..n] == a[..n - 1] + [a[n - 1]] && b[..n] == b[..n - 1] + [b[n - 1]];
    }
  }

  /** `more` fills whatever `some` fills. */
  predicate Includes(more: seq<bool>, some: seq<bool>) {
    |some| <= |more| && forall k :: 0 <= k < |some| && some[k] ==> more[k]
  }

  /** Leaving a gap open never hurts. */
  ghost predicate Monotone(accepts: seq<bool> -> bool) {
    forall some, more :: Includes(more, some) && accepts(more) ==> accepts(some)
  }

  /** Where leaving a gap open never hurts, as many are filled as can be: nothing is accepted that
      fills all of them and one more. */
  lemma NothingMoreFits(accepts: seq<bool> -> bool, taken: seq<bool>, more: seq<bool>, k: nat)
    requires Monotone(accepts) && Chosen(accepts, taken)
    requires |more| == |taken| && Includes(more, taken) && k < |taken| && !taken[k] && more[k]
    ensures !accepts(more)
  {
    var one := taken[..k] + [true];
    assert Includes(more, one);
    assert InTurn(accepts, taken) && !accepts(one);
  }

  /** Exactly the gaps outside `harmful` are filled. */
  predicate Spares(taken: seq<bool>, harmful: set<nat>) {
    forall k: nat :: k < |taken| ==> (taken[k] <==> k !in harmful)
  }

  /** Some gaps change the settings, whatever else is filled, and all others never do. */
  ghost predicate Separate(accepts: seq<bool> -> bool, n: nat, harmful: set<nat>) {
    forall some :: |some| <= n ==> (accepts(some) <==> Avoids(some, harmful))
  }

  predicate Avoids(taken: seq<bool>, harmful: set<nat>) {
    forall k: nat :: k < |taken| && taken[k] ==> k !in harmful
  }

  /** If each missing entry either changes the settings or does not, whatever the others, exactly
      those that do not come back. */
  lemma HarmlessComeBack(accepts: seq<bool> -> bool, taken: seq<bool>, harmful: set<nat>)
    requires Separate(accepts, |taken|, harmful) && Chosen(accepts, taken)
    ensures Spares(taken, harmful)
  {
    if !accepts(All(|taken|)) {
      HarmlessSoFar(accepts, taken, harmful, |taken|);
      assert taken[..|taken|] == taken;
    }
  }

  lemma {:induction false} HarmlessSoFar(accepts: seq<bool> -> bool, taken: seq<bool>, harmful: set<nat>, n: nat)
    requires Separate(accepts, |taken|, harmful) && InTurn(accepts, taken) && n <= |taken|
    ensures Spares(taken[..n], harmful)
  {
    if n > 0 {
      HarmlessSoFar(accepts, taken, harmful, n - 1);
      var front := taken[..n - 1];
      AvoidsOne(front, harmful);
      assert taken[n - 1] <==> accepts(front + [true]);
      assert taken[..n] == front + [taken[n - 1]];
    }
  }

  lemma AvoidsOne(front: seq<bool>, harmful: set<nat>)
    requires Spares(front, harmful)
    ensures Avoids(front + [true], harmful) <==> |front| !in harmful
  {
    var one, n: nat := front + [true], |front|;
    assert one[n];
  }

  // ---------------------------------------------------------------------------------------
  // What has been filled stays filled

  /** The entry stands at its place. */
  predicate Has(r: Meaning, path: seq<Segment>, key: string, m: Meaning)
    decreases path
  {
    if path == [] then r.Table? && key in r.entries && r.entries[key] == m
    else if path[0].Key? then
      r.Table? && path[0].key in r.entries && Has(r.entries[path[0].key], path[1..], key, m)
    else
      r.List? && path[0].index < |r.items| && Has(r.items[path[0].index], path[1..], key, m)
  }

  lemma {:induction false} PatchedHas(v: Meaning, r: Meaning, p: Meaning, g: Gap)
    requires Extends(v, r, Some(p)) && Lacks(v, p, g.path, g.key, g.meaning)
    ensures Has(Patch(r, g), g.path, g.key, g.meaning)
    decreases g.path
  {
    ExtendsInsert(v, r, p, g.path, g.key, g.meaning);
    if g.path != [] {
      var s, rest := g.path[0], Gap(g.path[1..], g.key, g.meaning);
      if s.Key? {
        ExtendsInsert(v.entries[s.key], r.entries[s.key], p.entries[s.key], rest.path, g.key, g.meaning);
        PatchedHas(v.entries[s.key], r.entries[s.key], p.entries[s.key], rest);
      } else {
        ExtendsInsert(v.items[s.index], r.items[s.index], p.items[s.index], rest.path, g.key, g.meaning);
        PatchedHas(v.items[s.index], r.items[s.index], p.items[s.index], rest);
      }
    }
  }

  lemma {:induction false} HasStays(v: Meaning, r: Meaning, p: Meaning, g: Gap, h: Gap)
    requires Extends(v, r, Some(p)) && Has(r, g.path, g.key, g.meaning)
    requires Lacks(v, p, g.path, g.key, g.meaning) && Lacks(v, p, h.path, h.key, h.meaning)
    ensures Has(Patch(r, h), g.path, g.key, g.meaning)
    decreases h.path
  {
    ExtendsInsert(v, r, p, h.path, h.key, h.meaning);
    if g.path != [] && h.path != [] && g.path[0] == h.path[0] {
      var s, g', h' := g.path[0], Gap(g.path[1..], g.key, g.meaning), Gap(h.path[1..], h.key, h.meaning);
      if s.Key? {
        ExtendsInsert(v.entries[s.key], r.entries[s.key], p.entries[s.key], h'.path, h.key, h.meaning);
        HasStays(v.entries[s.key], r.entries[s.key], p.entries[s.key], g', h');
      } else {
        ExtendsInsert(v.items[s.index], r.items[s.index], p.items[s.index], h'.path, h.key, h.meaning);
        HasStays(v.items[s.index], r.items[s.index], p.items[s.index], g', h');
      }
    }
  }

  ghost predicate AllLacking(v: Meaning, p: Meaning, gaps: seq<Gap>) {
    forall k :: 0 <= k < |gaps| ==> Lacks(v, p, gaps[k].path, gaps[k].key, gaps[k].meaning)
  }

  /** Filling gaps, any of them, extends; and what was filled is there. */
  lemma {:induction false} TakenAreThere(v: Meaning, p: Meaning, gaps: seq<Gap>, taken: seq<bool>)
    requires AllLacking(v, p, gaps) && |taken| <= |gaps|
    ensures var r := Patched(v, gaps, taken);
            && Extends(v, r, Some(p))
            && forall k :: 0 <= k < |taken| && taken[k] ==> Has(r, gaps[k].path, gaps[k].key, gaps[k].meaning)
    decreases |taken|
  {
    hide Extends, Has, Lacks, InsertMeaning;
    if taken == [] {
      ExtendsSelf(v, Some(p));
    } else {
      var n := |taken| - 1;
      var front, before := taken[..n], Patched(v, gaps, taken[..n]);
      TakenAreThere(v, p, gaps, front);
      if taken[n] {
        var h := gaps[n];
        ExtendsInsert(v, before, p, h.path, h.key, h.meaning);
        PatchedHas(v, before, p, h);
        forall k | 0 <= k < n && taken[k]
          ensures Has(Patch(before, h), gaps[k].path, gaps[k].key, gaps[k].meaning)
        {
          assert front[k];
          HasStays(v, before, p, gaps[k], h);
        }
      }
    }
  }

  // ---------------------------------------------------------------------------------------
  // The rewrite

  lemma {:induction false} PatchedAll(value: Value, previous: Value, misses: seq<Miss>, n: nat)
    requires WellFormed(value) && WellFormed(previous) && n <= |misses|
    requires forall k :: 0 <= k < |misses| ==> WellFormed(misses[k].value)
    requires forall k :: 0 <= k < |misses| ==> Real(value, previous, misses[k])
    ensures InsertAll(value, misses[..n]).Some? && Grown(value, previous, InsertAll(value, misses[..n]).value)
    ensures MeaningOf(InsertAll(value, misses[..n]).value) == Patched(MeaningOf(value), Gaps(misses), All(n))
  {
    hide MeaningOf, InsertAt, InsertMeaning, Extends, Lacks, Patched, InsertAll;
    GrowAll(value, previous, misses[..n]);
    if n == 0 {
      assert misses[..0] == [];
      NoneInserted(value, Gaps(misses));
    } else {
      PatchedAll(value, previous, misses, n - 1);
      var m := misses[n - 1];
      assert misses[..n] == misses[..n - 1] + [m] && All(n) == All(n - 1) + [true];
      InsertAllSnoc(value, misses[..n - 1], m);
      PatchedMore(MeaningOf(value), Gaps(misses), All(n - 1));
      InsertAtMeans(InsertAll(value, misses[..n - 1]).value, m.path, m.key, m.value);
    }
  }

  lemma NoneInserted(value: Value, gaps: seq<Gap>)
    requires WellFormed(value)
    ensures InsertAll(value, []) == Some(value) && Patched(MeaningOf(value), gaps, All(0)) == MeaningOf(value)
  {
  }

  /** All gaps filled is the merge. */
  lemma AllIsMerge(value: Value, previous: Value)
    requires WellFormed(value) && WellFormed(previous)
    ensures var misses := Missing(value, previous);
            && (forall k :: 0 <= k < |misses| ==> WellFormed(misses[k].value))
            && AllLacking(MeaningOf(value), MeaningOf(previous), Gaps(misses))
            && Patched(MeaningOf(value), Gaps(misses), All(|misses|))
            == MergeMeaning(MeaningOf(value), MeaningOf(previous))
  {
    hide MeaningOf, InsertAll, MergeMeaning, Lacks, Merge, Missing, Patched;
    var misses := Missing(value, previous);
    MissesAreReal(value, previous);
    PatchedAll(value, previous, misses, |misses|);
    assert misses[..|misses|] == misses;
    BatchIsMerge(value, previous);
    MergeMeans(value, previous);
  }

  /** The gaps between two versions of a configuration, in the order they are tried. */
  function GapsBetween(value: Value, previous: Value): (gaps: seq<Gap>)
    requires WellFormed(value) && WellFormed(previous)
    ensures |gaps| == |Missing(value, previous)|
  {
    MissesAreReal(value, previous);
    Gaps(Missing(value, previous))
  }

  /** `preserve_semantic_noop_entries`. `parse` reads settings from what a value means, so not
      from the order of its mappings. `taken` tells which missing entries are back: all, if that
      parses to the settings, and otherwise, in turn, each that does on top of those before. */
  method PreserveNoopEntries<S(==)>(value: Value, previous: Value, settings: S, parse: Meaning -> Option<S>)
      returns (result: Value, ghost taken: seq<bool>)
    requires WellFormed(value) && WellFormed(previous)
    ensures WellFormed(result) && |taken| == |GapsBetween(value, previous)|
    ensures MeaningOf(result) == Patched(MeaningOf(value), GapsBetween(value, previous), taken)
    ensures Chosen(Accepts(MeaningOf(value), GapsBetween(value, previous), settings, parse), taken)
    ensures parse(MeaningOf(value)) == Some(settings) ==> parse(MeaningOf(result)) == Some(settings)
    ensures MeaningOf(result) == MeaningOf(value) || parse(MeaningOf(result)) == Some(settings)
    ensures Extends(MeaningOf(value), MeaningOf(result), Some(MeaningOf(previous)))
    ensures forall g :: g in GapsBetween(value, previous) && !Has(MeaningOf(result), g.path, g.key, g.meaning) ==>
              exists k :: 0 <= k < |taken| && GapsBetween(value, previous)[k] == g && !taken[k]
    ensures var merged := MergeMeaning(MeaningOf(value), MeaningOf(previous));
            parse(merged) == Some(settings) ==> MeaningOf(result) == merged
    ensures Follows(result, previous)
  {
    hide MeaningOf, Missing, InsertAll, InsertAt, InsertMeaning, Merge, MergeMeaning, Extends, Lacks, Follows, Real,
         Below, Has, Patched, Gaps;
    var missing := CollectMissing(value, previous, [], []);
    NoPath(Missing(value, previous));
    MissesAreReal(value, previous);
    AllIsMerge(value, previous);
    PatchedAll(value, previous, missing, |missing|);
    assert missing[..|missing|] == missing;
    ghost var gaps := GapsBetween(value, previous);
    ghost var v, p := MeaningOf(value), MeaningOf(previous);
    var batch, insertedAll := InsertBatch(value, missing);
    if insertedAll && parse(MeaningOf(batch)) == Some(settings) {
      result := Reorder(batch, previous);
      taken := All(|missing|);
      TakenAreThere(v, p, gaps, taken);
      return;
    }
    var current;
    current, taken := OneByOne(value, previous, missing, settings, parse);
    TakenAreThere(v, p, gaps, taken);
    result := Reorder(current, previous);
  }

  /** The second half of `preserve_semantic_noop_entries`. */
  method OneByOne<S(==)>(value: Value, previous: Value, missing: seq<Miss>, settings: S, parse: Meaning -> Option<S>)
      returns (current: Value, ghost taken: seq<bool>)
    requires WellFormed(value) && WellFormed(previous) && missing == Missing(value, previous)
    ensures Grown(value, previous, current) && |taken| == |missing|
    ensures MeaningOf(current) == Patched(MeaningOf(value), GapsBetween(value, previous), taken)
    ensures InTurn(Accepts(MeaningOf(value), GapsBetween(value, previous), settings, parse), taken)
    ensures current == value || parse(MeaningOf(current)) == Some(settings)
  {
    hide MeaningOf, Missing, InsertAt, InsertMeaning, Extends, Lacks;
    MissesAreReal(value, previous);
    ExtendsSelf(MeaningOf(value), Some(MeaningOf(previous)));
    ghost var v, gaps := MeaningOf(value), GapsBetween(value, previous);
    ghost var accepts := Accepts(v, gaps, settings, parse);
    current, taken := value, [];
    var i := 0;
    while i < |missing|
      invariant 0 <= i <= |missing| && Grown(value, previous, current)
      invariant |taken| == i && MeaningOf(current) == Patched(v, gaps, taken)
      invariant InTurn(accepts, taken)
      invariant current == value || parse(MeaningOf(current)) == Some(settings)
    {
      var m := missing[i];
      GrowOne(value, previous, current, m);
      InsertAtMeans(current, m.path, m.key, m.value);
      var candidate := InsertAt(current, m.path, m.key, m.value);
      PatchedMore(v, gaps, taken);
      ghost var took := candidate.Some? && parse(MeaningOf(candidate.value)) == Some(settings);
      ghost var was := taken;
      if candidate.Some? && parse(MeaningOf(candidate.value)) == Some(settings) {
        current := candidate.value;
      }
      taken := taken + [took];
      assert forall k :: 0 <= k < i ==> taken[..k] == was[..k];
      assert taken[..i] == was;
      i := i + 1;
    }
  }

  lemma PatchedMore(v: Meaning, gaps: seq<Gap>, taken: seq<bool>)
    requires |taken| < |gaps|
    ensures Patched(v, gaps, taken + [true]) == Patch(Patched(v, gaps, taken), gaps[|taken|])
    ensures Patched(v, gaps, taken + [false]) == Patched(v, gaps, taken)
  {
    hide Patch;
    assert (taken + [true])[..|taken|] == taken && (taken + [false])[..|taken|] == taken;
  }

  lemma NoPath(misses: seq<Miss>)
    ensures [] + Below([], misses) == misses
  {
    forall k | 0 <= k < |misses| ensures Below([], misses)[k] == misses[k] {
      assert [] + misses[k].path == misses[k].path;
    }
  }
}
