/** Request mapping: rules of the active preset are compiled, a request is sent elsewhere by the
    rule a scan would pick, and a trace names that rule. */
module MappingEngine {
  import opened Basics
  import opened MappingRules

  // ---------------------------------------------------------------------------------------
  // Settings, and the parsers the engine is given

  datatype RuleSetting = RuleSetting(from: string, to: string, enable: bool)

  datatype RuleList = RuleList(enable: bool, rules: seq<RuleSetting>)

  datatype Preset = Preset(name: string, mapRemote: RuleList, mapLocal: RuleList)

  datatype Proxy = Proxy(enable: bool, activePreset: Option<string>, presets: seq<Preset>)

  datatype RemoteTarget = RemoteTarget(scheme: string, host: string, port: Option<nat>, path: Option<string>)

  datatype Outcome<T> = Parsed(value: T) | Rejected(error: string)

  /** URL handling is not modelled: whatever it does, it is these functions. */
  datatype Reader = Reader(
    trim: string -> string,
    request: string -> Option<RequestUrl>,
    reread: string -> Option<RequestUrl>,
    pattern: string -> Outcome<RulePattern>,
    target: string -> Outcome<RemoteTarget>,
    home: string -> Outcome<string>,
    apply: (RemoteTarget, string) -> string,
    uri: string -> Option<string>)

  // ---------------------------------------------------------------------------------------
  // Diagnostics

  datatype Severity = Warning | Error

  datatype Code =
    | MissingActivePreset
    | ActivePresetNotFound
    | InvalidRuleSource
    | InvalidRuleTarget
    | EmptyPresetName
    | DuplicatePresetName

  datatype Table = Remote | Local

  datatype Field = From | To

  datatype Location = Location(preset: nat, table: Table, rule: nat, field: Field)

  datatype Diagnostic = Diagnostic(severity: Severity, code: Code, location: Option<Location>, detail: string)

  function ActiveName(r: Reader, proxy: Proxy): string {
    r.trim(if proxy.activePreset.Some? then proxy.activePreset.value else "")
  }

  /** The first preset of a name. */
  function PresetOf(r: Reader, presets: seq<Preset>, name: string): (i: Option<nat>)
    ensures i.Some? ==> i.value < |presets| && r.trim(presets[i.value].name) == name
    ensures i.Some? ==> forall j :: 0 <= j < i.value ==> r.trim(presets[j].name) != name
    ensures i.None? ==> forall j :: 0 <= j < |presets| ==> r.trim(presets[j].name) != name
  {
    if presets == [] then None
    else
      var front := presets[..|presets| - 1];
      assert forall j :: 0 <= j < |front| ==> front[j] == presets[j];
      var i := PresetOf(r, front, name);
      if i.Some? then i
      else if r.trim(presets[|presets| - 1].name) == name then Some(|presets| - 1) else None
  }

  /** `active_preset_diagnostic` */
  function PresetDiagnostic(r: Reader, proxy: Proxy): Option<Diagnostic> {
    var name := ActiveName(r, proxy);
    if name == "" then
      if proxy.presets == [] then None else Some(Diagnostic(Warning, MissingActivePreset, None, ""))
    else if PresetOf(r, proxy.presets, name).None? then Some(Diagnostic(Warning, ActivePresetNotFound, None, name))
    else None
  }

  // ---------------------------------------------------------------------------------------
  // Compiling

  datatype Located<T> = Located(target: T, preset: nat, table: Table, rule: nat)

  /** A rule that is switched on and can be parsed on both sides. */
  predicate Usable<T>(s: RuleSetting, pattern: string -> Outcome<RulePattern>, target: string -> Outcome<T>) {
    s.enable && pattern(s.from).Parsed? && target(s.to).Parsed?
  }

  function Compiled<T>(settings: seq<RuleSetting>, preset: nat, table: Table,
                       pattern: string -> Outcome<RulePattern>, target: string -> Outcome<T>): seq<Rule<Located<T>>> {
    if settings == [] then []
    else
      var n := |settings| - 1;
      var s := settings[n];
      Compiled(settings[..n], preset, table, pattern, target) +
      if Usable(s, pattern, target)
      then [Rule(pattern(s.from).value, Located(target(s.to).value, preset, table, n))] else []
  }

  /** One complaint for each rule that is on but not usable: about its source, else its target. */
  function Skipped<T>(settings: seq<RuleSetting>, preset: nat, table: Table,
                      pattern: string -> Outcome<RulePattern>, target: string -> Outcome<T>): seq<Diagnostic> {
    if settings == [] then []
    else
      var n := |settings| - 1;
      var s := settings[n];
      Skipped(settings[..n], preset, table, pattern, target) +
      if !s.enable then []
      else if pattern(s.from).Rejected? then
        [Diagnostic(Warning, InvalidRuleSource, Some(Location(preset, table, n, From)), pattern(s.from).error)]
      else if target(s.to).Rejected? then
        [Diagnostic(Warning, InvalidRuleTarget, Some(Location(preset, table, n, To)), target(s.to).error)]
      else []
  }

  /** `compile_remote_rules` and `compile_local_rules` */
  method CompileRules<T>(settings: seq<RuleSetting>, preset: nat, table: Table,
                         pattern: string -> Outcome<RulePattern>, target: string -> Outcome<T>,
                         into: CompiledRules<Located<T>>, diagnostics: seq<Diagnostic>)
      returns (more: seq<Diagnostic>)
    requires into.Valid()
    modifies into
    ensures into.Valid() && into.rules == old(into.rules) + Compiled(settings, preset, table, pattern, target)
    ensures more == diagnostics + Skipped(settings, preset, table, pattern, target)
  {
    hide Compiled, Skipped, CompiledRules.Valid;
    NoSettings(preset, table, pattern, target);
    assert settings[..0] == [];
    more := diagnostics;
    var i := 0;
    while i < |settings|
      invariant 0 <= i <= |settings| && into.Valid()
      invariant into.rules == old(into.rules) + Compiled(settings[..i], preset, table, pattern, target)
      invariant more == diagnostics + Skipped(settings[..i], preset, table, pattern, target)
    {
      var s := settings[i];
      OneSettingMore(settings, i, preset, table, pattern, target);
      i := i + 1;
      if !s.enable { continue; }
      var from := pattern(s.from);
      if from.Rejected? {
        more := more + [Diagnostic(Warning, InvalidRuleSource, Some(Location(preset, table, i - 1, From)), from.error)];
        continue;
      }
      var to := target(s.to);
      if to.Rejected? {
        more := more + [Diagnostic(Warning, InvalidRuleTarget, Some(Location(preset, table, i - 1, To)), to.error)];
        continue;
      }
      into.Insert(from.value, Located(to.value, preset, table, i - 1));
    }
    assert settings[..i] == settings;
  }

  lemma NoSettings<T>(preset: nat, table: Table, pattern: string -> Outcome<RulePattern>, target: string -> Outcome<T>)
    ensures Compiled([], preset, table, pattern, target) == [] && Skipped([], preset, table, pattern, target) == []
  {
  }

  lemma OneSettingMore<T>(settings: seq<RuleSetting>, i: nat, preset: nat, table: Table,
                          pattern: string -> Outcome<RulePattern>, target: string -> Outcome<T>)
    requires i < |settings|
    ensures var s := settings[i];
            Compiled(settings[..i + 1], preset, table, pattern, target) ==
            Compiled(settings[..i], preset, table, pattern, target) +
            if Usable(s, pattern, target)
            then [Rule(pattern(s.from).value, Located(target(s.to).value, preset, table, i))] else []
    ensures var s := settings[i];
            Skipped(settings[..i + 1], preset, table, pattern, target) ==
            Skipped(settings[..i], preset, table, pattern, target) +
            if !s.enable then []
            else if pattern(s.from).Rejected? then
              [Diagnostic(Warning, InvalidRuleSource, Some(Location(preset, table, i, From)), pattern(s.from).error)]
            else if target(s.to).Rejected? then
              [Diagnostic(Warning, InvalidRuleTarget, Some(Location(preset, table, i, To)), target(s.to).error)]
            else []
  {
    assert settings[..i + 1][..i] == settings[..i];
  }

  /** `r` is the last usable rule of the pattern, by its place in the settings, or none if there
      is none. */
  ghost predicate IsLastUsable<T>(settings: seq<RuleSetting>, preset: nat, table: Table,
                            pattern: string -> Outcome<RulePattern>, target: string -> Outcome<T>, p: RulePattern,
                            r: Option<Located<T>>)
  {
    match r
    case Some(l) =>
      && l.preset == preset && l.table == table && l.rule < |settings|
      && var s := settings[l.rule];
      && Usable(s, pattern, target) && pattern(s.from).value == p && target(s.to).value == l.target
      && forall j :: l.rule < j < |settings| && Usable(settings[j], pattern, target) ==>
           pattern(settings[j].from).value != p
    case None =>
      forall j :: 0 <= j < |settings| && Usable(settings[j], pattern, target) ==>
        pattern(settings[j].from).value != p
  }

  lemma OneUsableMore<T>(settings: seq<RuleSetting>, preset: nat, table: Table,
                         pattern: string -> Outcome<RulePattern>, target: string -> Outcome<T>, p: RulePattern,
                         r: Option<Located<T>>)
    requires settings != []
    requires IsLastUsable(settings[..|settings| - 1], preset, table, pattern, target, p, r)
    ensures var n := |settings| - 1;
            var s := settings[n];
            var more := if Usable(s, pattern, target) && pattern(s.from).value == p
                        then Some(Located(target(s.to).value, preset, table, n)) else r;
            IsLastUsable(settings, preset, table, pattern, target, p, more)
  {
    assert forall j :: 0 <= j < |settings| - 1 ==> settings[..|settings| - 1][j] == settings[j];
  }

  /** The table's answer is the last usable rule of the pattern, by its place in the settings. */
  lemma {:induction false} LastIsLastUsable<T>(
      settings: seq<RuleSetting>, preset: nat, table: Table,
      pattern: string -> Outcome<RulePattern>, target: string -> Outcome<T>, p: RulePattern)
    ensures IsLastUsable(settings, preset, table, pattern, target, p,
                         LastOf(Compiled(settings, preset, table, pattern, target), p))
  {
    if settings == [] {
      NoSettings(preset, table, pattern, target);
    } else {
      hide LastOf, Compiled, IsLastUsable;
      var n := |settings| - 1;
      var front, s := settings[..n], settings[n];
      LastIsLastUsable(front, preset, table, pattern, target, p);
      var rules := Compiled(front, preset, table, pattern, target);
      OneUsableMore(settings, preset, table, pattern, target, p, LastOf(rules, p));
      OneSettingMore(settings, n, preset, table, pattern, target);
      assert settings[..n + 1] == settings;
      if Usable(s, pattern, target) {
        LastOfSnoc(rules, Rule(pattern(s.from).value, Located(target(s.to).value, preset, table, n)), p);
      } else {
        assert rules + [] == rules;
      }
    }
  }

  predicate Matching<T>(settings: seq<RuleSetting>, j: nat, p: RulePattern,
                        pattern: string -> Outcome<RulePattern>, target: string -> Outcome<T>)
    requires j < |settings|
  {
    Usable(settings[j], pattern, target) && pattern(settings[j].from).value == p
  }

  /** The last usable rule for the request's exact path, or else the last usable rule for its
      host, or else none. */
  ghost predicate Picks<T>(settings: seq<RuleSetting>, rule: Option<nat>,
                           pattern: string -> Outcome<RulePattern>, target: string -> Outcome<T>, request: RequestUrl)
  {
    var exact, host := RulePattern(request.origin, Some(request.path)), RulePattern(request.origin, None);
    match rule
    case Some(i) =>
      && i < |settings|
      && (|| (Matching(settings, i, exact, pattern, target)
              && forall j :: i < j < |settings| ==> !Matching(settings, j, exact, pattern, target))
          || (Matching(settings, i, host, pattern, target)
              && (forall j :: i < j < |settings| ==> !Matching(settings, j, host, pattern, target))
              && (forall j :: 0 <= j < |settings| ==> !Matching(settings, j, exact, pattern, target))))
    case None =>
      forall j :: 0 <= j < |settings| ==>
        !Matching(settings, j, exact, pattern, target) && !Matching(settings, j, host, pattern, target)
  }

  function RuleOf<T>(l: Option<Located<T>>): Option<nat> { if l.Some? then Some(l.value.rule) else None }

  /** A scan of the compiled rules, in the settings' own terms. */
  lemma ScanOverSettings<T>(
      settings: seq<RuleSetting>, preset: nat, table: Table,
      pattern: string -> Outcome<RulePattern>, target: string -> Outcome<T>, request: RequestUrl)
    ensures var r := ScanMatch(Compiled(settings, preset, table, pattern, target), request);
            && Picks(settings, RuleOf(r), pattern, target, request)
            && (r.Some? ==>
                  && r.value.preset == preset && r.value.table == table
                  && target(settings[r.value.rule].to) == Parsed(r.value.target))
  {
    hide Compiled;
    LastIsLastUsable(settings, preset, table, pattern, target, RulePattern(request.origin, Some(request.path)));
    LastIsLastUsable(settings, preset, table, pattern, target, RulePattern(request.origin, None));
  }

  // ---------------------------------------------------------------------------------------
  // The engine

  datatype Decision = Decision(mappedUri: Option<string>, localPath: Option<string>)

  datatype Place = Place(preset: nat, table: Table, rule: nat)

  datatype Trace = Trace(
    localPath: Option<string>,
    effectiveUri: Option<string>,
    remoteMatch: Option<Place>,
    localMatch: Option<Place>)

  function PlaceOf<T>(l: Option<Located<T>>): Option<Place> {
    if l.Some? then Some(Place(l.value.preset, l.value.table, l.value.rule)) else None
  }

  function TargetOf<T>(l: Option<Located<T>>): Option<T> { if l.Some? then Some(l.value.target) else None }

  /** The remote rule of a request, by scanning. */
  function RemoteRule(remote: seq<Rule<Located<RemoteTarget>>>, request: Option<RequestUrl>):
      Option<Located<RemoteTarget>> {
    if request.None? then None else ScanMatch(remote, request.value)
  }

  /** Where the request goes once its remote rule has been applied. */
  function Remapped(r: Reader, remote: seq<Rule<Located<RemoteTarget>>>, request: Option<RequestUrl>): Option<string> {
    var rule := RemoteRule(remote, request);
    if rule.None? then None else Some(r.apply(rule.value.target, request.value.url))
  }

  /** The local rule: looked for under the remapped URL when there is one. */
  function LocalRule(r: Reader, remote: seq<Rule<Located<RemoteTarget>>>, local: seq<Rule<Located<string>>>,
                     request: Option<RequestUrl>): Option<Located<string>> {
    var mapped := Remapped(r, remote, request);
    var asked := if mapped.Some? then r.reread(mapped.value) else request;
    if asked.None? then None else ScanMatch(local, asked.value)
  }

  /** Where `map_request` sends a request, by scanning. */
  function DecisionOf(r: Reader, remote: seq<Rule<Located<RemoteTarget>>>, local: seq<Rule<Located<string>>>,
                      uri: string): Decision {
    var request := r.request(uri);
    var mapped := Remapped(r, remote, request);
    Decision(if mapped.None? then None else r.uri(mapped.value), TargetOf(LocalRule(r, remote, local, request)))
  }

  /** What `trace_request` says about it. */
  function TraceOf(r: Reader, remote: seq<Rule<Located<RemoteTarget>>>, local: seq<Rule<Located<string>>>,
                   uri: string): Trace {
    var request := r.request(uri);
    var mapped, found := Remapped(r, remote, request), LocalRule(r, remote, local, request);
    Trace(TargetOf(found),
          if request.None? then None else r.uri(if mapped.Some? then mapped.value else request.value.url),
          PlaceOf(RemoteRule(remote, request)),
          PlaceOf(found))
  }

  class MappingEngine {
    const read: Reader
    const remote: CompiledRules<Located<RemoteTarget>>
    const local: CompiledRules<Located<string>>
    var diagnostics: seq<Diagnostic>

    ghost predicate Valid()
      reads this, remote, local
    {
      remote.Valid() && local.Valid()
    }

    /** `compile` */
    constructor Compile(read: Reader, proxy: Option<Proxy>)
      ensures Valid() && this.read == read
      ensures diagnostics == ExpectedDiagnostics(read, proxy)
      ensures remote.rules == ExpectedRemote(read, proxy) && local.rules == ExpectedLocal(read, proxy)
    {
      this.read := read;
      var r := new CompiledRules<Located<RemoteTarget>>();
      var l := new CompiledRules<Located<string>>();
      remote, local, diagnostics := r, l, [];
      new;
      hide Compiled, Skipped, CompiledRules.Valid, PresetOf;
      if proxy.None? || !proxy.value.enable { return; }
      var complaint := PresetDiagnostic(read, proxy.value);
      if complaint.Some? {
        diagnostics := [complaint.value];
        return;
      }
      var name := ActiveName(read, proxy.value);
      if name == "" { return; }
      var i := PresetOf(read, proxy.value.presets, name).value;
      LoadPreset(i, proxy.value.presets[i]);
    }

    method LoadPreset(i: nat, preset: Preset)
      requires Valid() && remote.rules == [] && local.rules == [] && diagnostics == []
      modifies this`diagnostics, remote, local
      ensures Valid()
      ensures remote.rules ==
              if preset.mapRemote.enable then Compiled(preset.mapRemote.rules, i, Remote, read.pattern, read.target)
              else []
      ensures local.rules ==
              if preset.mapLocal.enable then Compiled(preset.mapLocal.rules, i, Local, read.pattern, read.home) else []
      ensures diagnostics ==
              (if preset.mapRemote.enable then Skipped(preset.mapRemote.rules, i, Remote, read.pattern, read.target)
               else [])
              + if preset.mapLocal.enable then Skipped(preset.mapLocal.rules, i, Local, read.pattern, read.home) else []
    {
      hide Compiled, Skipped, CompiledRules.Valid;
      if preset.mapRemote.enable {
        diagnostics := CompileRules(preset.mapRemote.rules, i, Remote, read.pattern, read.target, remote, diagnostics);
      }
      if preset.mapLocal.enable {
        diagnostics := CompileRules(preset.mapLocal.rules, i, Local, read.pattern, read.home, local, diagnostics);
      }
    }

    /** `map_request` does what scanning the rules says. */
    method MapRequest(uri: string) returns (d: Decision)
      requires Valid()
      ensures d == DecisionOf(read, remote.rules, local.rules, uri)
    {
      hide ScanMatch;
      Empties();
      if remote.IsEmpty() && local.IsEmpty() { return Decision(None, None); }
      var request := read.request(uri);
      if request.None? { return Decision(None, None); }
      var rule := remote.MatchTarget(request.value);
      var mapped := if rule.Some? then Some(read.apply(rule.value.target, request.value.url)) else None;
      var found: Option<Located<string>> := None;
      if !local.IsEmpty() {
        var asked := if mapped.Some? then read.reread(mapped.value) else request;
        if asked.Some? { found := local.MatchTarget(asked.value); }
      }
      d := Decision(if mapped.None? then None else read.uri(mapped.value), TargetOf(found));
    }

    /** `trace_request` names the rules `map_request` goes by. */
    method TraceRequest(uri: string) returns (t: Trace)
      requires Valid()
      ensures t == TraceOf(read, remote.rules, local.rules, uri)
    {
      hide ScanMatch;
      Empties();
      var request := read.request(uri);
      if request.None? { return Trace(None, None, None, None); }
      var rule := remote.MatchTarget(request.value);
      var mapped := if rule.Some? then Some(read.apply(rule.value.target, request.value.url)) else None;
      var found: Option<Located<string>> := None;
      if !local.IsEmpty() {
        var asked := if mapped.Some? then read.reread(mapped.value) else request;
        if asked.Some? { found := local.MatchTarget(asked.value); }
      }
      var effective := if mapped.Some? then mapped.value else request.value.url;
      t := Trace(TargetOf(found), read.uri(effective), PlaceOf(rule), PlaceOf(found));
    }

    lemma Empties()
      requires Valid()
      ensures remote.IsEmpty() ==> forall q :: ScanMatch(remote.rules, q) == None
      ensures local.IsEmpty() ==> forall q :: ScanMatch(local.rules, q) == None
    {
    }
  }

  /** The preset whose rules are compiled. */
  function ActivePreset(r: Reader, proxy: Option<Proxy>): (i: Option<nat>)
    ensures i.Some? ==> proxy.Some? && i.value < |proxy.value.presets|
  {
    if proxy.None? || !proxy.value.enable || PresetDiagnostic(r, proxy.value).Some? then None
    else if ActiveName(r, proxy.value) == "" then None
    else PresetOf(r, proxy.value.presets, ActiveName(r, proxy.value))
  }

  function ExpectedRemote(r: Reader, proxy: Option<Proxy>): seq<Rule<Located<RemoteTarget>>> {
    var i := ActivePreset(r, proxy);
    if i.None? || !proxy.value.presets[i.value].mapRemote.enable then []
    else Compiled(proxy.value.presets[i.value].mapRemote.rules, i.value, Remote, r.pattern, r.target)
  }

  function ExpectedLocal(r: Reader, proxy: Option<Proxy>): seq<Rule<Located<string>>> {
    var i := ActivePreset(r, proxy);
    if i.None? || !proxy.value.presets[i.value].mapLocal.enable then []
    else Compiled(proxy.value.presets[i.value].mapLocal.rules, i.value, Local, r.pattern, r.home)
  }

  function ExpectedDiagnostics(r: Reader, proxy: Option<Proxy>): seq<Diagnostic> {
    if proxy.None? || !proxy.value.enable then []
    else if PresetDiagnostic(r, proxy.value).Some? then [PresetDiagnostic(r, proxy.value).value]
    else
      var i := ActivePreset(r, proxy);
      if i.None? then []
      else
        var preset := proxy.value.presets[i.value];
        (if preset.mapRemote.enable then Skipped(preset.mapRemote.rules, i.value, Remote, r.pattern, r.target) else [])
        + if preset.mapLocal.enable then Skipped(preset.mapLocal.rules, i.value, Local, r.pattern, r.home) else []
  }

  function RulesIn(list: RuleList): seq<RuleSetting> { if list.enable then list.rules else [] }

  /** What is traced is what is done: the same local path, and the effective URL is the mapped one
      whenever a remote rule matched. */
  lemma TraceAgrees(r: Reader, remote: seq<Rule<Located<RemoteTarget>>>, local: seq<Rule<Located<string>>>, uri: string)
    ensures var d, t := DecisionOf(r, remote, local, uri), TraceOf(r, remote, local, uri);
            && d.localPath == t.localPath && (d.localPath.Some? <==> t.localMatch.Some?)
            && d.mappedUri == if t.remoteMatch.Some? then t.effectiveUri else None
  {
  }

  /** Settings to decision: a request goes by the last usable remote rule of the active preset for
      its path, or else for its host, and then by the local rule picked in the same way for the
      URL it was sent to; the trace names these two rules by their places. Without an active preset
      nothing is mapped. */
  lemma SettingsDecide(r: Reader, proxy: Option<Proxy>, uri: string)
    ensures var d := DecisionOf(r, ExpectedRemote(r, proxy), ExpectedLocal(r, proxy), uri);
            var t := TraceOf(r, ExpectedRemote(r, proxy), ExpectedLocal(r, proxy), uri);
            var request, active := r.request(uri), ActivePreset(r, proxy);
            if active.None? || request.None? then
              d == Decision(None, None) && t.remoteMatch.None? && t.localMatch.None?
            else
              var preset := proxy.value.presets[active.value];
              var remote, local := RulesIn(preset.mapRemote), RulesIn(preset.mapLocal);
              var m, l := t.remoteMatch, t.localMatch;
              && Picks(remote, NumberOf(m), r.pattern, r.target, request.value)
              && (m.Some? ==> m.value.preset == active.value && m.value.table == Remote)
              && (m.None? ==> d.mappedUri == None)
              && var sent := if m.None? then None
                             else Some(r.apply(r.target(remote[m.value.rule].to).value, request.value.url));
              && (sent.Some? ==> d.mappedUri == t.effectiveUri == r.uri(sent.value))
              && var asked := if sent.Some? then r.reread(sent.value) else request;
              && (asked.None? ==> l.None?)
              && (asked.Some? ==> Picks(local, NumberOf(l), r.pattern, r.home, asked.value))
              && (l.Some? ==> l.value.preset == active.value && l.value.table == Local)
              && d.localPath == if l.None? then None else Some(r.home(local[l.value.rule].to).value)
  {
    hide Compiled, Picks, ScanMatch;
    NothingToScan<Located<RemoteTarget>>();
    NothingToScan<Located<string>>();
    var request, active := r.request(uri), ActivePreset(r, proxy);
    if active.Some? && request.Some? {
      var preset := proxy.value.presets[active.value];
      var remote, local := RulesIn(preset.mapRemote), RulesIn(preset.mapLocal);
      NoSettings(active.value, Remote, r.pattern, r.target);
      NoSettings(active.value, Local, r.pattern, r.home);
      ScanOverSettings(remote, active.value, Remote, r.pattern, r.target, request.value);
      var mapped := Remapped(r, ExpectedRemote(r, proxy), request);
      var asked := if mapped.Some? then r.reread(mapped.value) else request;
      if asked.Some? { ScanOverSettings(local, active.value, Local, r.pattern, r.home, asked.value); }
    }
  }

  function NumberOf(p: Option<Place>): Option<nat> { if p.Some? then Some(p.value.rule) else None }

  lemma NothingToScan<T>()
    ensures forall q :: ScanMatch<T>([], q) == None
  {
  }

  // ---------------------------------------------------------------------------------------
  // Presets and complaints, in the settings' own terms

  /** The name of the preset that is asked for. */
  function Wanted(r: Reader, p: Proxy): string {
    match p.activePreset case None => r.trim("") case Some(name) => r.trim(name)
  }

  /** The active preset is the first of the name that is asked for, of settings that are on. */
  lemma ActivePresetIsNamed(r: Reader, proxy: Option<Proxy>, i: nat)
    ensures ActivePreset(r, proxy) == Some(i) <==>
              && proxy.Some? && proxy.value.enable && Wanted(r, proxy.value) != ""
              && i < |proxy.value.presets| && r.trim(proxy.value.presets[i].name) == Wanted(r, proxy.value)
              && forall j :: 0 <= j < i ==> r.trim(proxy.value.presets[j].name) != Wanted(r, proxy.value)
  {
  }

  /** What is said about the active preset: that none is asked for though there are some, or that
      the one asked for is not there. */
  lemma PresetComplaints(r: Reader, p: Proxy)
    ensures var name, d := Wanted(r, p), PresetDiagnostic(r, p);
            var there := exists j :: 0 <= j < |p.presets| && r.trim(p.presets[j].name) == name;
            && (d == Some(Diagnostic(Warning, MissingActivePreset, None, "")) <==> name == "" && |p.presets| > 0)
            && (d == Some(Diagnostic(Warning, ActivePresetNotFound, None, name)) <==> name != "" && !there)
            && (d == None <==> if name == "" then |p.presets| == 0 else there)
  {
  }

  /** A complaint about rule `j`, which is on: of its source, or else of its target. */
  predicate SkipFault<T>(s: RuleSetting, preset: nat, table: Table, j: nat, d: Diagnostic,
                         pattern: string -> Outcome<RulePattern>, target: string -> Outcome<T>)
  {
    && s.enable && d.severity == Warning
    && match d.code
       case InvalidRuleSource =>
         d.location == Some(Location(preset, table, j, From)) && pattern(s.from) == Rejected(d.detail)
       case InvalidRuleTarget =>
         && d.location == Some(Location(preset, table, j, To)) && pattern(s.from).Parsed?
         && target(s.to) == Rejected(d.detail)
       case _ => false
  }

  lemma {:induction false} SkipFaults<T>(settings: seq<RuleSetting>, preset: nat, table: Table, d: Diagnostic,
                                         pattern: string -> Outcome<RulePattern>, target: string -> Outcome<T>)
    ensures d in Skipped(settings, preset, table, pattern, target) <==>
              exists j :: 0 <= j < |settings| && SkipFault(settings[j], preset, table, j, d, pattern, target)
  {
    hide Skipped, SkipFault;
    if settings == [] {
      NoSettings(preset, table, pattern, target);
    } else {
      var n := |settings| - 1;
      var front := settings[..n];
      SkipFaults(front, preset, table, d, pattern, target);
      OneSkipFault(settings, n, preset, table, d, pattern, target);
      assert settings[..n + 1] == settings;
      assert forall j :: 0 <= j < n ==> front[j] == settings[j];
    }
  }

  lemma OneSkipFault<T>(settings: seq<RuleSetting>, n: nat, preset: nat, table: Table, d: Diagnostic,
                        pattern: string -> Outcome<RulePattern>, target: string -> Outcome<T>)
    requires n < |settings|
    ensures d in Skipped(settings[..n + 1], preset, table, pattern, target) <==>
              || d in Skipped(settings[..n], preset, table, pattern, target)
              || SkipFault(settings[n], preset, table, n, d, pattern, target)
  {
    hide Skipped, Compiled;
    OneSettingMore(settings, n, preset, table, pattern, target);
  }

  /** Compiling complains of the active preset, if there is cause, and else of each rule in its
      tables that is on and cannot be used; and of nothing else. */
  lemma CompileComplains(r: Reader, p: Proxy, d: Diagnostic)
    requires p.enable
    ensures d in ExpectedDiagnostics(r, Some(p)) <==>
              || PresetDiagnostic(r, p) == Some(d)
              || (ActivePreset(r, Some(p)).Some? &&
                  var i := ActivePreset(r, Some(p)).value;
                  var remote, local := RulesIn(p.presets[i].mapRemote), RulesIn(p.presets[i].mapLocal);
                  || (exists j :: 0 <= j < |remote| && SkipFault(remote[j], i, Remote, j, d, r.pattern, r.target))
                  || (exists j :: 0 <= j < |local| && SkipFault(local[j], i, Local, j, d, r.pattern, r.home)))
  {
    hide Skipped, SkipFault, PresetOf, PresetDiagnostic;
    if PresetDiagnostic(r, p).None? && ActivePreset(r, Some(p)).Some? {
      var i := ActivePreset(r, Some(p)).value;
      SkipFaults(RulesIn(p.presets[i].mapRemote), i, Remote, d, r.pattern, r.target);
      SkipFaults(RulesIn(p.presets[i].mapLocal), i, Local, d, r.pattern, r.home);
    }
  }
}
