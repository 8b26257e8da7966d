/** The compiled rule table: hashed by origin and exact path, it answers like a scan of the rules. */
module MappingRules {
  import opened Basics

  datatype OriginKey = OriginKey(scheme: string, host: string, port: nat)

  /** A rule names an origin, and either one exact path or the whole host. */
  datatype RulePattern = RulePattern(origin: OriginKey, path: Option<string>)

  datatype RequestUrl = RequestUrl(url: string, origin: OriginKey, path: string)

  datatype Rule<T> = Rule(pattern: RulePattern, target: T)

  datatype OriginRules<T> = OriginRules(hostRule: Option<T>, pathRules: map<string, T>)

  // ---------------------------------------------------------------------------------------
  // The scan

  /** The last rule of exactly this pattern. */
  function LastOf<T>(rules: seq<Rule<T>>, pattern: RulePattern): (r: Option<T>)
    ensures r.None? ==> forall i :: 0 <= i < |rules| ==> rules[i].pattern != pattern
    ensures r.Some? ==> exists i :: 0 <= i < |rules| && rules[i] == Rule(pattern, r.value)
                                    && forall j :: i < j < |rules| ==> rules[j].pattern != pattern
  {
    if rules == [] then None
    else
      var n := |rules| - 1;
      if rules[n].pattern == pattern then
        assert rules[n] == Rule(pattern, rules[n].target);
        Some(rules[n].target)
      else
        var r := LastOf(rules[..n], pattern);
        assert forall i :: 0 <= i < n ==> rules[..n][i] == rules[i];
        r
  }

  lemma LastOfSnoc<T>(rules: seq<Rule<T>>, rule: Rule<T>, p: RulePattern)
    ensures LastOf(rules + [rule], p) == if rule.pattern == p then Some(rule.target) else LastOf(rules, p)
  {
    assert (rules + [rule])[..|rules|] == rules;
  }

  /** Exact path first, whole host second; among equals the last one wins. */
  function ScanMatch<T>(rules: seq<Rule<T>>, request: RequestUrl): Option<T> {
    var exact := LastOf(rules, RulePattern(request.origin, Some(request.path)));
    if exact.Some? then exact else LastOf(rules, RulePattern(request.origin, None))
  }

  // ---------------------------------------------------------------------------------------
  // The table

  class CompiledRules<T> {
    var byOrigin: map<OriginKey, OriginRules<T>>
    /** Every rule inserted so far, in order. */
    ghost var rules: seq<Rule<T>>

    /** Looking a pattern up finds the last rule inserted for it. */
    ghost predicate Valid()
      reads this
    {
      && (forall p: RulePattern :: Lookup(p) == LastOf(rules, p))
      && (byOrigin == map[] <==> rules == [])
    }

    function Lookup(p: RulePattern): Option<T>
      reads this
    {
      if p.origin !in byOrigin then None
      else
        var at := byOrigin[p.origin];
        if p.path.None? then at.hostRule
        else if p.path.value in at.pathRules then Some(at.pathRules[p.path.value]) else None
    }

    constructor ()
      ensures Valid() && rules == []
    {
      byOrigin, rules := map[], [];
    }

    /** `insert` */
    method Insert(pattern: RulePattern, target: T)
      requires Valid()
      modifies this
      ensures Valid() && rules == old(rules) + [Rule(pattern, target)]
    {
      var at := if pattern.origin in byOrigin then byOrigin[pattern.origin] else OriginRules(None, map[]);
      at := if pattern.path.Some? then at.(pathRules := at.pathRules[pattern.path.value := target])
            else at.(hostRule := Some(target));
      byOrigin := byOrigin[pattern.origin := at];
      ghost var was := rules;
      rules := rules + [Rule(pattern, target)];
      forall p: RulePattern ensures Lookup(p) == LastOf(rules, p) {
        assert rules[..|was|] == was;
        assert old(Lookup(p)) == LastOf(was, p);
      }
    }

    predicate IsEmpty()
      reads this
    {
      byOrigin == map[]
    }

    /** `match_target`: one look at the origin, then path before host. */
    method MatchTarget(request: RequestUrl) returns (r: Option<T>)
      requires Valid()
      ensures r == ScanMatch(rules, request)
    {
      assert Lookup(RulePattern(request.origin, Some(request.path)))
          == LastOf(rules, RulePattern(request.origin, Some(request.path)));
      assert Lookup(RulePattern(request.origin, None)) == LastOf(rules, RulePattern(request.origin, None));
      if request.origin !in byOrigin { return None; }
      var at := byOrigin[request.origin];
      if request.path in at.pathRules { return Some(at.pathRules[request.path]); }
      return at.hostRule;
    }
  }
}
