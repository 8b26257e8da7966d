/** Checking proxy settings: every complaint is counted, a limited number is kept, and settings
    without complaints are compiled in full. */
module MappingValidation {
  import opened Basics
  import opened MappingRules
  import opened MappingEngine

  // ---------------------------------------------------------------------------------------
  // All complaints

  /** Both sides of every rule are checked, whether the rule is on or not. */
  function RuleErrors<T>(settings: seq<RuleSetting>, preset: nat, table: Table,
                         pattern: string -> Outcome<RulePattern>, target: string -> Outcome<T>): seq<Diagnostic> {
    if settings == [] then []
    else
      var n := |settings| - 1;
      var from, to := pattern(settings[n].from), target(settings[n].to);
      RuleErrors(settings[..n], preset, table, pattern, target)
      + (if from.Rejected?
         then [Diagnostic(Error, InvalidRuleSource, Some(Location(preset, table, n, From)), from.error)]
         else [])
      + if to.Rejected? then [Diagnostic(Error, InvalidRuleTarget, Some(Location(preset, table, n, To)), to.error)]
        else []
  }

  /** The names a preset must not repeat. */
  function NamesOf(r: Reader, presets: seq<Preset>): set<string> {
    set i | 0 <= i < |presets| && r.trim(presets[i].name) != "" :: r.trim(presets[i].name)
  }

  function NameErrors(r: Reader, presets: seq<Preset>, n: nat): seq<Diagnostic>
    requires n < |presets|
  {
    var name := r.trim(presets[n].name);
    if name == "" then [Diagnostic(Error, EmptyPresetName, None, "")]
    else if name in NamesOf(r, presets[..n]) then [Diagnostic(Error, DuplicatePresetName, None, presets[n].name)]
    else []
  }

  function PresetErrors(r: Reader, presets: seq<Preset>): seq<Diagnostic> {
    if presets == [] then []
    else
      var n := |presets| - 1;
      PresetErrors(r, presets[..n]) + NameErrors(r, presets, n)
      + RuleErrors(presets[n].mapRemote.rules, n, Remote, r.pattern, r.target)
      + RuleErrors(presets[n].mapLocal.rules, n, Local, r.pattern, r.home)
  }

  /** The full list, as if there were no limit. */
  function AllErrors(r: Reader, proxy: Proxy): seq<Diagnostic> {
    PresetErrors(r, proxy.presets) +
    var active := PresetDiagnostic(r, proxy);
    if active.None? then [] else [active.value.(severity := Error)]
  }

  // ---------------------------------------------------------------------------------------
  // Every fault is reported, and nothing else

  /** A complaint about rule `j`, and there is cause for it. */
  predicate RuleFault<T>(s: RuleSetting, preset: nat, table: Table, j: nat, d: Diagnostic,
                         pattern: string -> Outcome<RulePattern>, target: string -> Outcome<T>)
  {
    d.severity == Error &&
    match d.code
    case InvalidRuleSource =>
      d.location == Some(Location(preset, table, j, From)) && pattern(s.from) == Rejected(d.detail)
    case InvalidRuleTarget =>
      d.location == Some(Location(preset, table, j, To)) && target(s.to) == Rejected(d.detail)
    case _ => false
  }

  lemma {:induction false} RuleFaults<T>(settings: seq<RuleSetting>, preset: nat, table: Table, d: Diagnostic,
                                         pattern: string -> Outcome<RulePattern>, target: string -> Outcome<T>)
    ensures d in RuleErrors(settings, preset, table, pattern, target) <==>
              exists j :: 0 <= j < |settings| && RuleFault(settings[j], preset, table, j, d, pattern, target)
  {
    hide RuleErrors, RuleFault;
    if settings == [] {
      NoRuleErrors(preset, table, pattern, target);
    } else {
      var n := |settings| - 1;
      var front := settings[..n];
      RuleFaults(front, preset, table, d, pattern, target);
      OneRulesFaults(settings, n, preset, table, d, pattern, target);
      assert settings[..n + 1] == settings;
      assert forall j :: 0 <= j < n ==> front[j] == settings[j];
    }
  }

  lemma OneRulesFaults<T>(settings: seq<RuleSetting>, n: nat, preset: nat, table: Table, d: Diagnostic,
                          pattern: string -> Outcome<RulePattern>, target: string -> Outcome<T>)
    requires n < |settings|
    ensures d in RuleErrors(settings[..n + 1], preset, table, pattern, target) <==>
              || d in RuleErrors(settings[..n], preset, table, pattern, target)
              || RuleFault(settings[n], preset, table, n, d, pattern, target)
  {
    hide RuleErrors;
    OneRuleMore(settings, n, preset, table, pattern, target);
  }

  /** Another preset before this one has its name. */
  predicate Repeats(r: Reader, presets: seq<Preset>, n: nat)
    requires n < |presets|
  {
    exists i :: 0 <= i < n && r.trim(presets[i].name) == r.trim(presets[n].name)
  }

  /** A complaint about preset `n`, and there is cause for it. */
  ghost predicate PresetFault(r: Reader, presets: seq<Preset>, n: nat, d: Diagnostic)
    requires n < |presets|
  {
    var p := presets[n];
    || (r.trim(p.name) == "" && d == Diagnostic(Error, EmptyPresetName, None, ""))
    || (r.trim(p.name) != "" && Repeats(r, presets, n) && d == Diagnostic(Error, DuplicatePresetName, None, p.name))
    || (exists j ::
          0 <= j < |p.mapRemote.rules| && RuleFault(p.mapRemote.rules[j], n, Remote, j, d, r.pattern, r.target))
    || (exists j :: 0 <= j < |p.mapLocal.rules| && RuleFault(p.mapLocal.rules[j], n, Local, j, d, r.pattern, r.home))
  }

  lemma NameFaults(r: Reader, presets: seq<Preset>, n: nat)
    requires n < |presets|
    ensures r.trim(presets[n].name) != "" ==>
              (r.trim(presets[n].name) in NamesOf(r, presets[..n]) <==> Repeats(r, presets, n))
  {
    if r.trim(presets[n].name) != "" && Repeats(r, presets, n) {
      var i :| 0 <= i < n && r.trim(presets[i].name) == r.trim(presets[n].name);
      assert presets[..n][i] == presets[i];
    }
  }

  lemma {:induction false} PresetFaults(r: Reader, presets: seq<Preset>, d: Diagnostic)
    ensures d in PresetErrors(r, presets) <==> exists n :: 0 <= n < |presets| && PresetFault(r, presets, n, d)
  {
    hide RuleErrors, NamesOf, RuleFault, NameErrors, PresetFault;
    if presets != [] {
      var n := |presets| - 1;
      var front, p := presets[..n], presets[n];
      PresetFaults(r, front, d);
      OnePresetsFaults(r, presets, n, d);
      forall i | 0 <= i < n ensures PresetFault(r, front, i, d) <==> PresetFault(r, presets, i, d) {
        EarlierFaults(r, presets, n, i, d);
      }
    }
  }

  lemma EarlierFaults(r: Reader, presets: seq<Preset>, n: nat, i: nat, d: Diagnostic)
    requires i < n <= |presets|
    ensures PresetFault(r, presets[..n], i, d) <==> PresetFault(r, presets, i, d)
  {
    hide RuleFault;
    assert presets[..n][i] == presets[i];
    assert forall j :: 0 <= j < i ==> presets[..n][j] == presets[j];
  }

  lemma OnePresetsFaults(r: Reader, presets: seq<Preset>, n: nat, d: Diagnostic)
    requires n < |presets|
    ensures var p := presets[n];
            || d in NameErrors(r, presets, n) || d in RuleErrors(p.mapRemote.rules, n, Remote, r.pattern, r.target)
            || d in RuleErrors(p.mapLocal.rules, n, Local, r.pattern, r.home)
            <==> PresetFault(r, presets, n, d)
  {
    hide RuleErrors, NamesOf, RuleFault, Repeats;
    var p := presets[n];
    NameFaults(r, presets, n);
    RuleFaults(p.mapRemote.rules, n, Remote, d, r.pattern, r.target);
    RuleFaults(p.mapLocal.rules, n, Local, d, r.pattern, r.home);
  }

  /** The list complains of a preset exactly when it has no name or repeats one, of each side of
      each rule exactly when that cannot be parsed, and of the active preset exactly when it is
      not there. */
  lemma EveryFaultIsReported(r: Reader, proxy: Proxy, d: Diagnostic)
    ensures d in AllErrors(r, proxy) <==>
              || (exists n :: 0 <= n < |proxy.presets| && PresetFault(r, proxy.presets, n, d))
              || (d.severity == Error && PresetDiagnostic(r, proxy) == Some(d.(severity := Warning)))
  {
    hide PresetErrors, PresetFault;
    PresetFaults(r, proxy.presets, d);
  }

  // ---------------------------------------------------------------------------------------
  // Keeping some, counting all

  class DiagnosticCollector {
    var diagnostics: seq<Diagnostic>
    var total: nat
    const limit: nat
    ghost var all: seq<Diagnostic>

    ghost predicate Valid()
      reads this
    {
      diagnostics == all[..Min(limit, |all|)] && total == |all|
    }

    constructor (limit: nat)
      ensures Valid() && all == [] && this.limit == limit
    {
      this.limit := limit;
      diagnostics, total, all := [], 0, [];
    }

    method Push(d: Diagnostic)
      requires Valid()
      modifies this
      ensures Valid() && all == old(all) + [d]
    {
      total := total + 1;
      if |diagnostics| < limit {
        diagnostics := diagnostics + [d];
      }
      all := all + [d];
    }
  }

  lemma OneRuleMore<T>(settings: seq<RuleSetting>, i: nat, preset: nat, table: Table,
                       pattern: string -> Outcome<RulePattern>, target: string -> Outcome<T>)
    requires i < |settings|
    ensures var from, to := pattern(settings[i].from), target(settings[i].to);
            RuleErrors(settings[..i + 1], preset, table, pattern, target) ==
            RuleErrors(settings[..i], preset, table, pattern, target)
            + (if from.Rejected?
               then [Diagnostic(Error, InvalidRuleSource, Some(Location(preset, table, i, From)), from.error)]
               else [])
            + if to.Rejected?
              then [Diagnostic(Error, InvalidRuleTarget, Some(Location(preset, table, i, To)), to.error)]
              else []
  {
    assert settings[..i + 1][..i] == settings[..i];
  }

  method ValidateRules<T>(settings: seq<RuleSetting>, preset: nat, table: Table,
                          pattern: string -> Outcome<RulePattern>, target: string -> Outcome<T>,
                          collector: DiagnosticCollector)
    requires collector.Valid()
    modifies collector
    ensures collector.Valid()
    ensures collector.all == old(collector.all) + RuleErrors(settings, preset, table, pattern, target)
  {
    hide DiagnosticCollector.Valid, RuleErrors;
    NoRuleErrors(preset, table, pattern, target);
    assert settings[..0] == [];
    var i := 0;
    while i < |settings|
      invariant 0 <= i <= |settings| && collector.Valid()
      invariant collector.all == old(collector.all) + RuleErrors(settings[..i], preset, table, pattern, target)
    {
      OneRuleMore(settings, i, preset, table, pattern, target);
      var from := pattern(settings[i].from);
      if from.Rejected? {
        collector.Push(Diagnostic(Error, InvalidRuleSource, Some(Location(preset, table, i, From)), from.error));
      }
      var to := target(settings[i].to);
      if to.Rejected? {
        collector.Push(Diagnostic(Error, InvalidRuleTarget, Some(Location(preset, table, i, To)), to.error));
      }
      i := i + 1;
    }
    assert settings[..i] == settings;
  }

  lemma NoRuleErrors<T>(preset: nat, table: Table, pattern: string -> Outcome<RulePattern>,
                        target: string -> Outcome<T>)
    ensures RuleErrors([], preset, table, pattern, target) == []
  {
  }

  /** `validate_proxy_settings_capped`: a prefix of the full list, and its true length. */
  method ValidateProxySettingsCapped(r: Reader, proxy: Proxy, limit: nat)
      returns (diagnostics: seq<Diagnostic>, total: nat)
    ensures var all := AllErrors(r, proxy);
            diagnostics == all[..Min(limit, |all|)] && total == |all|
  {
    hide RuleErrors, NamesOf, PresetErrors, NameErrors;
    var collector := new DiagnosticCollector(limit);
    var names: set<string> := {};
    NothingChecked(r);
    assert proxy.presets[..0] == [];
    var n := 0;
    while n < |proxy.presets|
      invariant 0 <= n <= |proxy.presets| && collector.Valid() && fresh(collector)
      invariant names == NamesOf(r, proxy.presets[..n])
      invariant collector.all == PresetErrors(r, proxy.presets[..n])
    {
      OnePresetMore(r, proxy.presets, n);
      names := ValidatePreset(r, proxy.presets, n, names, collector);
      n := n + 1;
    }
    assert proxy.presets[..n] == proxy.presets;
    var active := PresetDiagnostic(r, proxy);
    if active.Some? {
      collector.Push(active.value.(severity := Error));
    }
    return collector.diagnostics, collector.total;
  }

  lemma NothingChecked(r: Reader)
    ensures NamesOf(r, []) == {} && PresetErrors(r, []) == []
  {
  }

  method ValidatePreset(r: Reader, presets: seq<Preset>, n: nat, names: set<string>, collector: DiagnosticCollector)
      returns (more: set<string>)
    requires n < |presets| && collector.Valid() && names == NamesOf(r, presets[..n])
    modifies collector
    ensures collector.Valid()
    ensures more == names + var name := r.trim(presets[n].name); if name == "" then {} else {name}
    ensures collector.all == old(collector.all) + NameErrors(r, presets, n)
              + RuleErrors(presets[n].mapRemote.rules, n, Remote, r.pattern, r.target)
              + RuleErrors(presets[n].mapLocal.rules, n, Local, r.pattern, r.home)
  {
    hide DiagnosticCollector.Valid, RuleErrors, NamesOf;
    var preset := presets[n];
    var name := r.trim(preset.name);
    more := names;
    if name == "" {
      collector.Push(Diagnostic(Error, EmptyPresetName, None, ""));
    } else if name in names {
      collector.Push(Diagnostic(Error, DuplicatePresetName, None, preset.name));
    } else {
      more := names + {name};
    }
    ValidateRules(preset.mapRemote.rules, n, Remote, r.pattern, r.target, collector);
    ValidateRules(preset.mapLocal.rules, n, Local, r.pattern, r.home, collector);
  }

  lemma OnePresetMore(r: Reader, presets: seq<Preset>, n: nat)
    requires n < |presets|
    ensures var name := r.trim(presets[n].name);
            NamesOf(r, presets[..n + 1]) == NamesOf(r, presets[..n]) + if name == "" then {} else {name}
    ensures PresetErrors(r, presets[..n + 1]) ==
            PresetErrors(r, presets[..n]) + NameErrors(r, presets, n)
            + RuleErrors(presets[n].mapRemote.rules, n, Remote, r.pattern, r.target)
            + RuleErrors(presets[n].mapLocal.rules, n, Local, r.pattern, r.home)
  {
    hide RuleErrors;
    var more, some := presets[..n + 1], presets[..n];
    assert more[..n] == some && more[n] == presets[n];
    forall name ensures name in NamesOf(r, more) <==>
                        name in NamesOf(r, some) || (name != "" && name == r.trim(presets[n].name))
    {
      if name in NamesOf(r, some) {
        var i :| 0 <= i < n && r.trim(some[i].name) == name;
        assert more[i] == some[i];
      }
      if name in NamesOf(r, more) {
        var i :| 0 <= i < n + 1 && r.trim(more[i].name) == name;
        assert i < n ==> some[i] == more[i];
      }
    }
  }

  // ---------------------------------------------------------------------------------------
  // No complaints, nothing skipped

  lemma {:induction false} CleanRules<T>(settings: seq<RuleSetting>, preset: nat, table: Table,
                                         pattern: string -> Outcome<RulePattern>, target: string -> Outcome<T>)
    requires RuleErrors(settings, preset, table, pattern, target) == []
    ensures Skipped(settings, preset, table, pattern, target) == []
    ensures forall i :: 0 <= i < |settings| && settings[i].enable ==> Usable(settings[i], pattern, target)
  {
    if settings != [] {
      var front := settings[..|settings| - 1];
      CleanRules(front, preset, table, pattern, target);
      assert forall i :: 0 <= i < |front| ==> settings[i] == front[i];
    }
  }

  lemma {:induction false} CleanPresets(r: Reader, presets: seq<Preset>, i: nat)
    requires PresetErrors(r, presets) == [] && i < |presets|
    ensures RuleErrors(presets[i].mapRemote.rules, i, Remote, r.pattern, r.target) == []
    ensures RuleErrors(presets[i].mapLocal.rules, i, Local, r.pattern, r.home) == []
  {
    hide RuleErrors;
    if i < |presets| - 1 { CleanPresets(r, presets[..|presets| - 1], i); }
  }

  /** Zero errors: compiling complains of nothing, and every rule that is on is usable. */
  lemma NoErrorsNothingSkipped(r: Reader, proxy: Proxy)
    requires AllErrors(r, proxy) == []
    ensures ExpectedDiagnostics(r, Some(proxy)) == []
    ensures proxy.enable && ActiveName(r, proxy) != "" ==> ActivePreset(r, Some(proxy)).Some?
    ensures var i := ActivePreset(r, Some(proxy));
            i.Some? ==>
              var preset := proxy.presets[i.value];
              && (forall j :: 0 <= j < |preset.mapRemote.rules| && preset.mapRemote.rules[j].enable ==>
                    Usable(preset.mapRemote.rules[j], r.pattern, r.target))
              && (forall j :: 0 <= j < |preset.mapLocal.rules| && preset.mapLocal.rules[j].enable ==>
                    Usable(preset.mapLocal.rules[j], r.pattern, r.home))
  {
    hide RuleErrors, Skipped;
    var i := ActivePreset(r, Some(proxy));
    if i.Some? {
      var preset := proxy.presets[i.value];
      CleanPresets(r, proxy.presets, i.value);
      CleanRules(preset.mapRemote.rules, i.value, Remote, r.pattern, r.target);
      CleanRules(preset.mapLocal.rules, i.value, Local, r.pattern, r.home);
    }
  }
}
