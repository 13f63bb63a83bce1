/**
 * The rule fold of index.js:26-195: every top-level rule of every style
 * sheet is classified, and either passed through as CSS, turned into a
 * plugin invocation (which also marks the plugin used), or dropped because
 * its plugin is not registered. A custom style rule whose declarations lack
 * an override value makes `exec(...)[1]` throw, which abandons the whole pass.
 */
module Rules {
  import opened Text
  import opened Markers
  import opened Objects
  import opened Invocations

  /** A top-level rule as the CSS object model presents it: type 1, type 12, or any other type. */
  datatype Rule =
    | StyleRule(selectorText: string, cssText: string, properties: seq<string>)
    | SupportsRule(conditionText: string, cssText: string)
    | OtherRule(cssText: string)

  /** The registered plugins of each kind, by name, with their source text. */
  datatype Registry = Registry(stylesheet: map<string, string>, rule: map<string, string>)

  /** The record the fold builds: the used plugins of each kind, the two invocation lists and the passed-through CSS. */
  datatype Output = Output(stylesheetPlugins: Dict, rulePlugins: Dict, generic: seq<string>, custom: seq<string>, css: seq<string>)

  const Initial: Output := Output(Empty, Empty, [], [], [])

  datatype Namespace = StylesheetNamespace | RuleNamespace

  /** Where one rule goes. `Crash` is the `TypeError` of reading `[1]` from a failed `exec`. */
  datatype Route =
    | Passthrough(text: string)
    | Invoke(ns: Namespace, plugin: string, custom: bool, call: string)
    | Dropped
    | Crash

  datatype Outcome = Ok(output: Output) | Aborted

  const SelectorProperty: string := "--selector"
  const EventsProperty: string := "--events"

  // ---------------------------------------------------------------------
  // classification (index.js:45, 115, 184)

  /** A style rule whose selector, or a supports rule whose condition, holds `--js-`. */
  predicate Powered(rule: Rule)
  {
    match rule
    case StyleRule(sel, _, _) => Contains(sel, Marker)
    case SupportsRule(cond, _) => Contains(cond, Marker)
    case OtherRule(_) => false
  }

  /** The plugin a powered rule names. */
  function PluginOf(rule: Rule): string
  {
    match rule
    case StyleRule(sel, _, _) => StylePluginName(sel)
    case SupportsRule(cond, _) => GroupPluginName(cond)
    case OtherRule(_) => []
  }

  /** A powered rule whose plugin is registered in the registry of its kind. */
  predicate Known(rule: Rule, reg: Registry)
  {
    Powered(rule)
    && match rule
       case StyleRule(_, _, _) => PluginOf(rule) in reg.rule
       case SupportsRule(_, _) => PluginOf(rule) in reg.stylesheet
       case OtherRule(_) => false
  }

  /** The namespace a rule's plugin is marked used in. */
  function NamespaceOf(rule: Rule): Namespace
  {
    if rule.StyleRule? then RuleNamespace else StylesheetNamespace
  }

  /** The body of a supports rule. */
  function BodyOf(rule: Rule): string
    requires rule.SupportsRule?
  {
    GroupBody(rule.cssText, |rule.conditionText|)
  }

  /** The declarations of a style rule. */
  function DeclarationsOf(rule: Rule): string
    requires rule.StyleRule?
  {
    Declarations(rule.cssText, |rule.selectorText|)
  }

  /** Custom events: both properties declared on a style rule; both names anywhere in a supports body. */
  predicate CustomMode(rule: Rule)
  {
    match rule
    case StyleRule(_, _, props) => SelectorProperty in props && EventsProperty in props
    case SupportsRule(_, _) => Contains(BodyOf(rule), SelectorProperty) && Contains(BodyOf(rule), EventsProperty)
    case OtherRule(_) => false
  }

  /** A known custom style rule whose declarations lack a `--selector: V;` or an `--events: V;`. */
  predicate Fails(rule: Rule, reg: Registry)
  {
    && Known(rule, reg) && rule.StyleRule? && CustomMode(rule)
    && (FirstValue(DeclarationsOf(rule), SelectorKey).None? || FirstValue(DeclarationsOf(rule), EventsKey).None?)
  }

  /** The invocation emitted for a powered style rule. */
  function StyleRoute(sel: string, css: string, props: seq<string>): (r: Route)
    ensures var decls := Declarations(css, |sel|);
      r.Crash? <==> SelectorProperty in props && EventsProperty in props
                    && (FirstValue(decls, SelectorKey).None? || FirstValue(decls, EventsKey).None?)
    ensures r.Invoke? || r.Crash?
    ensures r.Invoke? ==> r.ns == RuleNamespace && r.plugin == StylePluginName(sel)
                          && (r.custom <==> SelectorProperty in props && EventsProperty in props)
  {
    var plugin := StylePluginName(sel);
    var scope := ScopeSelector(sel);
    var args := StyleArguments(sel);
    var decls := Declarations(css, |sel|);
    if SelectorProperty in props && EventsProperty in props then
      match (FirstValue(decls, SelectorKey), FirstValue(decls, EventsKey))
      case (Some(selector), Some(events)) => Invoke(RuleNamespace, plugin, true, CustomRuleCall(plugin, scope, args, decls, selector, events))
      case _ => Crash
    else Invoke(RuleNamespace, plugin, false, RuleCall(plugin, scope, args, decls))
  }

  /** The invocation emitted for a powered supports rule. */
  function GroupRoute(cond: string, css: string): (r: Route)
    ensures r.Invoke? && r.ns == StylesheetNamespace && r.plugin == GroupPluginName(cond)
    ensures r.custom <==> Contains(GroupBody(css, |cond|), SelectorProperty) && Contains(GroupBody(css, |cond|), EventsProperty)
  {
    var plugin := GroupPluginName(cond);
    var args := GroupArguments(cond);
    var body := GroupBody(css, |cond|);
    if Contains(body, SelectorProperty) && Contains(body, EventsProperty) then
      Invoke(StylesheetNamespace, plugin, true, CustomGroupCall(plugin, args, body, LastValue(body, SelectorKey), LastValue(body, EventsKey)))
    else Invoke(StylesheetNamespace, plugin, false, GroupCall(plugin, args, body))
  }

  function Classify(rule: Rule, reg: Registry): (r: Route)
    ensures r.Passthrough? <==> !Powered(rule)
    ensures r.Passthrough? ==> r.text == rule.cssText
    ensures r.Dropped? <==> Powered(rule) && !Known(rule, reg)
    ensures r.Crash? <==> Fails(rule, reg)
    ensures r.Invoke? <==> Known(rule, reg) && !Fails(rule, reg)
    ensures r.Invoke? ==> r.plugin == PluginOf(rule) && r.ns == NamespaceOf(rule) && (r.custom <==> CustomMode(rule))
  {
    if !Powered(rule) then Passthrough(rule.cssText)
    else if !Known(rule, reg) then Dropped
    else match rule
      case StyleRule(sel, css, props) => StyleRoute(sel, css, props)
      case SupportsRule(cond, css) => GroupRoute(cond, css)
  }

  // ---------------------------------------------------------------------
  // the fold (index.js:38-42, 70, 83-110, 136, 153-178, 186)

  /** The registry entry a namespace names. */
  function UsedIn(out: Output, ns: Namespace): Dict
  {
    if ns == RuleNamespace then out.rulePlugins else out.stylesheetPlugins
  }

  /** What one classified rule does to the output record. */
  function Apply(out: Output, route: Route): (r: Output)
    requires !route.Crash?
    ensures |r.generic| + |r.custom| + |r.css| == |out.generic| + |out.custom| + |out.css| + (if route.Dropped? then 0 else 1)
    ensures |out.generic| <= |r.generic| && r.generic[..|out.generic|] == out.generic
    ensures |out.custom| <= |r.custom| && r.custom[..|out.custom|] == out.custom
    ensures |out.css| <= |r.css| && r.css[..|out.css|] == out.css
    ensures route.Passthrough? ==> r == out.(css := out.css + [route.text])
    ensures !route.Invoke? ==> r.stylesheetPlugins == out.stylesheetPlugins && r.rulePlugins == out.rulePlugins
    ensures route.Invoke? ==> r.css == out.css && UsedIn(r, route.ns) == Put(UsedIn(out, route.ns), route.plugin, "used")
    ensures route.Invoke? && route.ns == RuleNamespace ==> r.stylesheetPlugins == out.stylesheetPlugins
    ensures route.Invoke? && route.ns == StylesheetNamespace ==> r.rulePlugins == out.rulePlugins
    ensures route.Invoke? ==> (if route.custom then r.custom == out.custom + [route.call] && r.generic == out.generic
                               else r.generic == out.generic + [route.call] && r.custom == out.custom)
  {
    match route
    case Passthrough(text) => out.(css := out.css + [text])
    case Dropped => out
    case Invoke(ns, plugin, custom, call) =>
      var out1 :=
        if ns == RuleNamespace then out.(rulePlugins := Put(out.rulePlugins, plugin, "used"))
        else out.(stylesheetPlugins := Put(out.stylesheetPlugins, plugin, "used"));
      if custom then out1.(custom := out1.custom + [call]) else out1.(generic := out1.generic + [call])
  }

  /** The fold over a sequence of rules, abandoned at the first rule that crashes. */
  function Run(reg: Registry, out: Output, rules: seq<Rule>): Outcome
    decreases |rules|
  {
    if rules == [] then Ok(out)
    else
      var route := Classify(rules[0], reg);
      if route.Crash? then Aborted else Run(reg, Apply(out, route), rules[1..])
  }

  /** The rules of all style sheets, sheet after sheet. */
  function Flatten(sheets: seq<seq<Rule>>): (r: seq<Rule>)
    ensures |sheets| > 0 ==> r == sheets[0] + Flatten(sheets[1..])
    decreases |sheets|
  {
    if sheets == [] then [] else sheets[0] + Flatten(sheets[1..])
  }

  /**
   * The loop over `document.styleSheets` and their `cssRules`: computes the
   * fold over all rules in document order, abandoning the pass at a crash.
   */
  method Transform(reg: Registry, sheets: seq<seq<Rule>>) returns (r: Outcome)
    ensures r == Run(reg, Initial, Flatten(sheets))
  {
    var out := Initial;
    var i := 0;
    while i < |sheets|
      invariant 0 <= i <= |sheets|
      invariant Run(reg, out, Flatten(sheets[i..])) == Run(reg, Initial, Flatten(sheets))
    {
      assert Flatten(sheets[i..]) == sheets[i] + Flatten(sheets[i + 1..]) by {
        assert sheets[i..][1..] == sheets[i + 1..];
      }
      var j := 0;
      while j < |sheets[i]|
        invariant 0 <= j <= |sheets[i]|
        invariant Run(reg, out, sheets[i][j..] + Flatten(sheets[i + 1..])) == Run(reg, Initial, Flatten(sheets))
      {
        RunHead(reg, out, sheets[i], j, Flatten(sheets[i + 1..]));
        var route := Classify(sheets[i][j], reg);
        if route.Crash? {
          return Aborted;
        }
        out := Apply(out, route);
        j := j + 1;
      }
      assert sheets[i][j..] + Flatten(sheets[i + 1..]) == Flatten(sheets[i + 1..]);
      i := i + 1;
    }
    assert sheets[i..] == [];
    return Ok(out);
  }

  /** One step of the fold over the rules from position `j` of a sheet on. */
  lemma RunHead(reg: Registry, out: Output, sheet: seq<Rule>, j: nat, later: seq<Rule>)
    requires j < |sheet|
    ensures var route := Classify(sheet[j], reg);
      Run(reg, out, sheet[j..] + later)
        == if route.Crash? then Aborted else Run(reg, Apply(out, route), sheet[j + 1..] + later)
  {
    var rest := sheet[j..] + later;
    assert rest[0] == sheet[j];
    assert rest[1..] == sheet[j + 1..] + later;
  }

  // ---------------------------------------------------------------------
  // the fold, bucket by bucket

  /** The route of every rule, in order. */
  function Routes(reg: Registry, rules: seq<Rule>): (r: seq<Route>)
    ensures |r| == |rules|
    ensures forall i | 0 <= i < |rules| :: r[i] == Classify(rules[i], reg)
  {
    seq(|rules|, i requires 0 <= i < |rules| => Classify(rules[i], reg))
  }

  predicate AnyCrash(routes: seq<Route>)
  {
    exists i | 0 <= i < |routes| :: routes[i].Crash?
  }

  /** The passed-through texts among the routes, in order. */
  function Texts(routes: seq<Route>): (r: seq<string>)
    ensures |r| <= |routes|
    decreases |routes|
  {
    if routes == [] then []
    else (if routes[0].Passthrough? then [routes[0].text] else []) + Texts(routes[1..])
  }

  /** The invocation texts of one mode among the routes, in order. */
  function CallTexts(routes: seq<Route>, custom: bool): (r: seq<string>)
    ensures |r| <= |routes|
    decreases |routes|
  {
    if routes == [] then []
    else (if routes[0].Invoke? && routes[0].custom == custom then [routes[0].call] else []) + CallTexts(routes[1..], custom)
  }

  /** The plugins invoked in one namespace among the routes, in order, repeats included. */
  function Names(routes: seq<Route>, ns: Namespace): (r: seq<string>)
    ensures |r| <= |routes|
    decreases |routes|
  {
    if routes == [] then []
    else (if routes[0].Invoke? && routes[0].ns == ns then [routes[0].plugin] else []) + Names(routes[1..], ns)
  }

  /** The output record after a crash-free fold: each bucket followed by what the routes add to it. */
  function Summary(out: Output, routes: seq<Route>): Output
  {
    Output(
      PutAll(out.stylesheetPlugins, Names(routes, StylesheetNamespace), "used"),
      PutAll(out.rulePlugins, Names(routes, RuleNamespace), "used"),
      out.generic + CallTexts(routes, false),
      out.custom + CallTexts(routes, true),
      out.css + Texts(routes))
  }

  /**
   * The fold is abandoned exactly when some rule crashes; otherwise each
   * bucket is the old bucket followed by what the rules contribute to it, in
   * rule order, and each used record has had every invoked plugin assigned in turn.
   */
  lemma {:induction false} RunSummary(reg: Registry, out: Output, rules: seq<Rule>)
    ensures Run(reg, out, rules) == if AnyCrash(Routes(reg, rules)) then Aborted else Ok(Summary(out, Routes(reg, rules)))
    decreases |rules|
  {
    var routes := Routes(reg, rules);
    if rules != [] {
      var route := Classify(rules[0], reg);
      assert routes[0] == route;
      assert routes[1..] == Routes(reg, rules[1..]);
      CrashStep(routes);
      if !route.Crash? {
        RunSummary(reg, Apply(out, route), rules[1..]);
        SummaryStep(out, routes);
      }
    } else {
      assert Summary(out, routes) == out;
    }
  }

  lemma CrashStep(routes: seq<Route>)
    requires routes != []
    ensures AnyCrash(routes) <==> routes[0].Crash? || AnyCrash(routes[1..])
  {
    var rest := routes[1..];
    if AnyCrash(routes) && !routes[0].Crash? {
      var i :| 0 <= i < |routes| && routes[i].Crash?;
      assert rest[i - 1] == routes[i];
    }
    if AnyCrash(rest) {
      var i :| 0 <= i < |rest| && rest[i].Crash?;
      assert routes[i + 1] == rest[i];
    }
  }

  /** One route's contribution to each bucket is what `Apply` adds for it. */
  lemma SummaryStep(out: Output, routes: seq<Route>)
    requires routes != [] && !routes[0].Crash?
    ensures Summary(Apply(out, routes[0]), routes[1..]) == Summary(out, routes)
  {
    match routes[0]
    case Passthrough(t) =>
      assert Apply(out, routes[0]) == out.(css := out.css + [t]);
      SummaryPassthrough(out, routes);
    case Dropped =>
      var rest := routes[1..];
      assert Texts(routes) == Texts(rest);
      assert CallTexts(routes, true) == CallTexts(rest, true) && CallTexts(routes, false) == CallTexts(rest, false);
      assert Names(routes, RuleNamespace) == Names(rest, RuleNamespace);
      assert Names(routes, StylesheetNamespace) == Names(rest, StylesheetNamespace);
    case Invoke(_, _, _, _) => SummaryInvoke(out, routes);
  }

  lemma SummaryPassthrough(out: Output, routes: seq<Route>)
    requires routes != [] && routes[0].Passthrough?
    ensures Summary(out.(css := out.css + [routes[0].text]), routes[1..]) == Summary(out, routes)
  {
    var t, rest := routes[0].text, routes[1..];
    assert Texts(routes) == [t] + Texts(rest);
    assert out.css + [t] + Texts(rest) == out.css + ([t] + Texts(rest));
    assert CallTexts(routes, true) == CallTexts(rest, true) && CallTexts(routes, false) == CallTexts(rest, false);
    assert Names(routes, RuleNamespace) == Names(rest, RuleNamespace);
    assert Names(routes, StylesheetNamespace) == Names(rest, StylesheetNamespace);
  }

  lemma SummaryInvoke(out: Output, routes: seq<Route>)
    requires routes != [] && routes[0].Invoke?
    ensures Summary(Apply(out, routes[0]), routes[1..]) == Summary(out, routes)
  {
    var route, rest := routes[0], routes[1..];
    var out1 := Apply(out, route);
    assert Texts(routes) == Texts(rest);
    InvokeCalls(out, out1, routes);
    InvokeNames(out, out1, routes);
  }

  lemma InvokeCalls(out: Output, out1: Output, routes: seq<Route>)
    requires routes != [] && routes[0].Invoke?
    requires out1.generic == (if routes[0].custom then out.generic else out.generic + [routes[0].call])
    requires out1.custom == (if routes[0].custom then out.custom + [routes[0].call] else out.custom)
    ensures out1.generic + CallTexts(routes[1..], false) == out.generic + CallTexts(routes, false)
    ensures out1.custom + CallTexts(routes[1..], true) == out.custom + CallTexts(routes, true)
  {
    var route, rest := routes[0], routes[1..];
    if route.custom {
      assert CallTexts(routes, true) == [route.call] + CallTexts(rest, true);
      assert CallTexts(routes, false) == CallTexts(rest, false);
      AppendOne(out.custom, route.call, CallTexts(rest, true));
    } else {
      assert CallTexts(routes, false) == [route.call] + CallTexts(rest, false);
      assert CallTexts(routes, true) == CallTexts(rest, true);
      AppendOne(out.generic, route.call, CallTexts(rest, false));
    }
  }

  lemma AppendOne(a: seq<string>, x: string, b: seq<string>)
    ensures a + [x] + b == a + ([x] + b)
  {
  }

  lemma InvokeNames(out: Output, out1: Output, routes: seq<Route>)
    requires routes != [] && routes[0].Invoke?
    requires out1.rulePlugins == (if routes[0].ns == RuleNamespace then Put(out.rulePlugins, routes[0].plugin, "used") else out.rulePlugins)
    requires out1.stylesheetPlugins == (if routes[0].ns == StylesheetNamespace then Put(out.stylesheetPlugins, routes[0].plugin, "used") else out.stylesheetPlugins)
    ensures PutAll(out1.rulePlugins, Names(routes[1..], RuleNamespace), "used") == PutAll(out.rulePlugins, Names(routes, RuleNamespace), "used")
    ensures PutAll(out1.stylesheetPlugins, Names(routes[1..], StylesheetNamespace), "used") == PutAll(out.stylesheetPlugins, Names(routes, StylesheetNamespace), "used")
  {
    var route, rest := routes[0], routes[1..];
    if route.ns == RuleNamespace {
      assert Names(routes, RuleNamespace) == [route.plugin] + Names(rest, RuleNamespace);
      assert Names(routes, StylesheetNamespace) == Names(rest, StylesheetNamespace);
      PutAllCons(out.rulePlugins, route.plugin, Names(rest, RuleNamespace), "used");
    } else {
      assert Names(routes, StylesheetNamespace) == [route.plugin] + Names(rest, StylesheetNamespace);
      assert Names(routes, RuleNamespace) == Names(rest, RuleNamespace);
      PutAllCons(out.stylesheetPlugins, route.plugin, Names(rest, StylesheetNamespace), "used");
    }
  }

  // ---------------------------------------------------------------------
  // properties of the fold

  /** The route invokes `name` in namespace `ns`. */
  predicate Invokes(route: Route, ns: Namespace, name: string)
  {
    route.Invoke? && route.ns == ns && route.plugin == name
  }

  /** A name is among the invoked names of a namespace exactly when some route invokes it there. */
  lemma {:induction false} NamesInvoked(routes: seq<Route>, ns: Namespace, name: string)
    ensures name in Names(routes, ns) <==> exists i | 0 <= i < |routes| :: Invokes(routes[i], ns, name)
    decreases |routes|
  {
    if routes != [] {
      var rest := routes[1..];
      NamesInvoked(rest, ns, name);
      assert Names(routes, ns) == (if Invokes(routes[0], ns, name) || (routes[0].Invoke? && routes[0].ns == ns) then [routes[0].plugin] else []) + Names(rest, ns);
      if exists i | 0 <= i < |routes| :: Invokes(routes[i], ns, name) {
        var i :| 0 <= i < |routes| && Invokes(routes[i], ns, name);
        if i > 0 {
          assert Invokes(rest[i - 1], ns, name);
        }
      }
      if exists i | 0 <= i < |rest| :: Invokes(rest[i], ns, name) {
        var i :| 0 <= i < |rest| && Invokes(rest[i], ns, name);
        assert Invokes(routes[i + 1], ns, name);
      }
    }
  }

  /** No name is invoked in a namespace exactly when no route invokes anything there. */
  lemma {:induction false} NamesEmpty(routes: seq<Route>, ns: Namespace)
    ensures Names(routes, ns) == [] <==> forall i | 0 <= i < |routes| :: !(routes[i].Invoke? && routes[i].ns == ns)
    decreases |routes|
  {
    if routes != [] {
      var rest := routes[1..];
      NamesEmpty(rest, ns);
      forall i | 1 <= i < |routes|
        ensures routes[i] == rest[i - 1]
      {
      }
    }
  }

  /** An invoking route's call text is among the call texts of its mode. */
  lemma {:induction false} CallTextsHold(routes: seq<Route>, i: nat)
    requires i < |routes| && routes[i].Invoke?
    ensures routes[i].call in CallTexts(routes, routes[i].custom)
    decreases i
  {
    if i > 0 {
      CallTextsHold(routes[1..], i - 1);
      assert routes[1..][i - 1] == routes[i];
    }
  }

  /** Every call text of a mode comes from a route invoking in that mode. */
  lemma {:induction false} CallTextsFrom(routes: seq<Route>, custom: bool, x: string)
    requires x in CallTexts(routes, custom)
    ensures exists i | 0 <= i < |routes| :: routes[i].Invoke? && routes[i].custom == custom && routes[i].call == x
    decreases |routes|
  {
    var head := if routes[0].Invoke? && routes[0].custom == custom then [routes[0].call] else [];
    assert CallTexts(routes, custom) == head + CallTexts(routes[1..], custom);
    if x !in head {
      CallTextsFrom(routes[1..], custom, x);
      var i :| 0 <= i < |routes[1..]| && routes[1..][i].Invoke? && routes[1..][i].custom == custom && routes[1..][i].call == x;
      assert routes[i + 1] == routes[1..][i];
    }
  }

  /** A completed fold keeps the call of every invoking rule in the list of its mode. */
  lemma RunKeepsCalls(reg: Registry, out: Output, rules: seq<Rule>, i: nat)
    requires Run(reg, out, rules).Ok?
    requires i < |rules| && Classify(rules[i], reg).Invoke?
    ensures var route, o := Classify(rules[i], reg), Run(reg, out, rules).output;
      route.call in (if route.custom then o.custom else o.generic)
  {
    var routes := Routes(reg, rules);
    RunSummary(reg, out, rules);
    assert routes[i] == Classify(rules[i], reg);
    CallTextsHold(routes, i);
  }

  /** Starting from the initial record, some plugin is marked used exactly when some route invokes one. */
  lemma SummaryUsed(routes: seq<Route>)
    ensures var o := Summary(Initial, routes);
      (o.stylesheetPlugins.keys != [] || o.rulePlugins.keys != []) <==> exists i | 0 <= i < |routes| :: routes[i].Invoke?
  {
    PutAllEmpty(Empty, Names(routes, RuleNamespace), "used");
    PutAllEmpty(Empty, Names(routes, StylesheetNamespace), "used");
    NamesEmpty(routes, RuleNamespace);
    NamesEmpty(routes, StylesheetNamespace);
    forall i | 0 <= i < |routes| && routes[i].Invoke?
      ensures routes[i].ns == RuleNamespace || routes[i].ns == StylesheetNamespace
    {
    }
  }

  /** Every invoked name of a namespace belongs to the registry of that namespace. */
  lemma {:induction false} NamesRegistered(reg: Registry, rules: seq<Rule>)
    ensures forall name | name in Names(Routes(reg, rules), RuleNamespace) :: name in reg.rule
    ensures forall name | name in Names(Routes(reg, rules), StylesheetNamespace) :: name in reg.stylesheet
  {
    var routes := Routes(reg, rules);
    forall name | name in Names(routes, RuleNamespace)
      ensures name in reg.rule
    {
      NamesInvoked(routes, RuleNamespace, name);
      var i :| 0 <= i < |routes| && Invokes(routes[i], RuleNamespace, name);
      assert routes[i] == Classify(rules[i], reg);
    }
    forall name | name in Names(routes, StylesheetNamespace)
      ensures name in reg.stylesheet
    {
      NamesInvoked(routes, StylesheetNamespace, name);
      var i :| 0 <= i < |routes| && Invokes(routes[i], StylesheetNamespace, name);
      assert routes[i] == Classify(rules[i], reg);
    }
  }

  /** The fold completes exactly when no rule is a custom style rule lacking an override value. */
  lemma RunCompletes(reg: Registry, out: Output, rules: seq<Rule>)
    ensures Run(reg, out, rules).Ok? <==> forall i | 0 <= i < |rules| :: !Fails(rules[i], reg)
  {
    RunSummary(reg, out, rules);
    var routes := Routes(reg, rules);
    forall i | 0 <= i < |rules|
      ensures routes[i].Crash? <==> Fails(rules[i], reg)
    {
      assert routes[i] == Classify(rules[i], reg);
    }
  }

  /** The CSS text of the rules that are not powered, in order. */
  function PlainTexts(rules: seq<Rule>): (r: seq<string>)
    ensures |r| <= |rules|
    decreases |rules|
  {
    if rules == [] then []
    else (if Powered(rules[0]) then [] else [rules[0].cssText]) + PlainTexts(rules[1..])
  }

  /** The passed-through texts of the routes are the texts of the rules that are not powered. */
  lemma {:induction false} TextsArePlain(reg: Registry, rules: seq<Rule>)
    ensures Texts(Routes(reg, rules)) == PlainTexts(rules)
    decreases |rules|
  {
    if rules != [] {
      var routes := Routes(reg, rules);
      assert routes[1..] == Routes(reg, rules[1..]);
      TextsArePlain(reg, rules[1..]);
    }
  }

  /**
   * Passthrough: a completed fold appends to the CSS exactly the text of every
   * rule that is not powered, in order, and when no rule is powered it changes
   * nothing else.
   */
  lemma PassesThrough(reg: Registry, out: Output, rules: seq<Rule>)
    requires Run(reg, out, rules).Ok?
    ensures Run(reg, out, rules).output.css == out.css + PlainTexts(rules)
    ensures (forall i | 0 <= i < |rules| :: !Powered(rules[i]))
      ==> Run(reg, out, rules) == Ok(out.(css := out.css + PlainTexts(rules)))
  {
    RunSummary(reg, out, rules);
    TextsArePlain(reg, rules);
    var routes := Routes(reg, rules);
    if forall i | 0 <= i < |rules| :: !Powered(rules[i]) {
      PlainRun(reg, out, rules);
    }
  }

  /** Rules none of which is powered go through the fold untouched: only their texts are appended. */
  lemma {:induction false} PlainRun(reg: Registry, out: Output, rules: seq<Rule>)
    requires forall i | 0 <= i < |rules| :: !Powered(rules[i])
    ensures Run(reg, out, rules) == Ok(out.(css := out.css + PlainTexts(rules)))
    decreases |rules|
  {
    if rules == [] {
      assert out.css + [] == out.css;
    } else {
      var rest := rules[1..];
      assert !Powered(rules[0]);
      var out1 := out.(css := out.css + [rules[0].cssText]);
      assert Apply(out, Classify(rules[0], reg)) == out1;
      forall i | 0 <= i < |rest|
        ensures !Powered(rest[i])
      {
        assert rest[i] == rules[i + 1];
      }
      PlainRun(reg, out1, rest);
      assert PlainTexts(rules) == [rules[0].cssText] + PlainTexts(rest);
      assert out1.css + PlainTexts(rest) == out.css + PlainTexts(rules);
    }
  }

  /** The number of dropped routes. */
  function DropCount(routes: seq<Route>): nat
    decreases |routes|
  {
    if routes == [] then 0 else (if routes[0].Dropped? then 1 else 0) + DropCount(routes[1..])
  }

  /** Without a crash, every route that is not dropped lands in exactly one of the three lists. */
  lemma {:induction false} BucketSizes(routes: seq<Route>)
    requires !AnyCrash(routes)
    ensures |CallTexts(routes, false)| + |CallTexts(routes, true)| + |Texts(routes)| + DropCount(routes) == |routes|
    decreases |routes|
  {
    if routes != [] {
      CrashStep(routes);
      BucketSizes(routes[1..]);
    }
  }

  /**
   * Exclusivity: a completed fold grows the generic, custom and CSS lists by
   * one entry in all for every rule whose plugin is not dropped.
   */
  lemma RunSizes(reg: Registry, out: Output, rules: seq<Rule>)
    requires Run(reg, out, rules).Ok?
    ensures var r := Run(reg, out, rules).output;
      |r.generic| + |r.custom| + |r.css| == |out.generic| + |out.custom| + |out.css| + |rules| - DropCount(Routes(reg, rules))
  {
    RunSummary(reg, out, rules);
    BucketSizes(Routes(reg, rules));
  }

  /** Sheets in sequence: the fold over `a + b` is the fold over `b` continued from the fold over `a`. */
  lemma {:induction false} RunAppend(reg: Registry, out: Output, a: seq<Rule>, b: seq<Rule>)
    ensures Run(reg, out, a + b) == match Run(reg, out, a) case Ok(o) => Run(reg, o, b) case Aborted => Aborted
    decreases |a|
  {
    if a == [] {
      assert a + b == b;
    } else {
      assert (a + b)[0] == a[0] && (a + b)[1..] == a[1..] + b;
      var route := Classify(a[0], reg);
      if !route.Crash? {
        RunAppend(reg, Apply(out, route), a[1..], b);
      }
    }
  }

  /** A rule whose plugin is not registered leaves no trace: the fold runs as if it were absent. */
  lemma DroppedIsInvisible(reg: Registry, out: Output, a: seq<Rule>, rule: Rule, b: seq<Rule>)
    requires Powered(rule) && !Known(rule, reg)
    ensures Run(reg, out, a + [rule] + b) == Run(reg, out, a + b)
  {
    RunAppend(reg, out, a, [rule] + b);
    RunAppend(reg, out, a, b);
    assert a + [rule] + b == a + ([rule] + b);
    assert ([rule] + b)[1..] == b;
  }

  /** The record built by marking the invoked names of one namespace used, starting from `{}`. */
  lemma UsedRecord(routes: seq<Route>, ns: Namespace)
    ensures var d := PutAll(Empty, Names(routes, ns), "used");
      && Valid(d)
      && (forall name :: name in d.values <==> exists i | 0 <= i < |routes| :: Invokes(routes[i], ns, name))
      && (forall name | name in d.values :: d.values[name] == "used")
  {
    var names := Names(routes, ns);
    PutAllValues(Empty, names, "used");
    PutAllOrder(Empty, names, "used");
    forall name
      ensures name in names <==> exists i | 0 <= i < |routes| :: Invokes(routes[i], ns, name)
    {
      NamesInvoked(routes, ns, name);
    }
  }

  /**
   * The used records of a completed fold from the initial record: each holds,
   * valued "used", exactly the registered plugins of its own kind that some rule
   * invoked.
   */
  lemma UsedPlugins(reg: Registry, rules: seq<Rule>)
    requires Run(reg, Initial, rules).Ok?
    ensures var o, routes := Run(reg, Initial, rules).output, Routes(reg, rules);
      && Valid(o.rulePlugins) && Valid(o.stylesheetPlugins)
      && (forall name :: name in o.rulePlugins.values <==> exists i | 0 <= i < |rules| :: Invokes(routes[i], RuleNamespace, name))
      && (forall name :: name in o.stylesheetPlugins.values <==> exists i | 0 <= i < |rules| :: Invokes(routes[i], StylesheetNamespace, name))
      && (forall name | name in o.rulePlugins.values :: name in reg.rule && o.rulePlugins.values[name] == "used")
      && (forall name | name in o.stylesheetPlugins.values :: name in reg.stylesheet && o.stylesheetPlugins.values[name] == "used")
  {
    var routes := Routes(reg, rules);
    RunSummary(reg, Initial, rules);
    UsedRecord(routes, RuleNamespace);
    UsedRecord(routes, StylesheetNamespace);
    NamesRegistered(reg, rules);
    PutAllValues(Empty, Names(routes, RuleNamespace), "used");
    PutAllValues(Empty, Names(routes, StylesheetNamespace), "used");
  }

  /** The used record of rule plugins lists its keys in the order of their first invocation. */
  lemma UsedOrder(reg: Registry, rules: seq<Rule>)
    requires Run(reg, Initial, rules).Ok?
    ensures var o := Run(reg, Initial, rules).output;
      var rn, sn := Names(Routes(reg, rules), RuleNamespace), Names(Routes(reg, rules), StylesheetNamespace);
      && (forall i | 0 <= i < |o.rulePlugins.keys| :: o.rulePlugins.keys[i] in rn)
      && (forall i, j | 0 <= i < j < |o.rulePlugins.keys| :: FirstIndex(rn, o.rulePlugins.keys[i]) < FirstIndex(rn, o.rulePlugins.keys[j]))
      && (forall i | 0 <= i < |o.stylesheetPlugins.keys| :: o.stylesheetPlugins.keys[i] in sn)
      && (forall i, j | 0 <= i < j < |o.stylesheetPlugins.keys| :: FirstIndex(sn, o.stylesheetPlugins.keys[i]) < FirstIndex(sn, o.stylesheetPlugins.keys[j]))
  {
    var routes := Routes(reg, rules);
    RunSummary(reg, Initial, rules);
    PutAllOrder(Empty, Names(routes, RuleNamespace), "used");
    PutAllOrder(Empty, Names(routes, StylesheetNamespace), "used");
  }
}
