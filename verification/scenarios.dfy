/**
 * Whole rules as the browser serialises them, pushed through the
 * classifier: the selector and condition shapes the tool documents, with
 * their bodies, end in the invocation text or the route the fold takes.
 */
module Scenarios {
  import opened Text
  import opened Markers
  import Shapes
  import opened Invocations
  import opened Rules

  /** The scope the invocation names: the text before the marker, or `*` when there is none. */
  function ScopeOrAny(scope: string): string
  {
    if scope == [] then "*" else scope
  }

  /** `scope[--js-name] { m }` with a registered name and no custom events becomes a generic rule-plugin call. */
  lemma BareStyleRule(reg: Registry, scope: string, name: string, w1: string, m: string, w2: string, props: seq<string>)
    requires PluginName(name) && name in reg.rule
    requires !Contains(scope, RuleOpen)
    requires AllSpace(w1) && AllSpace(w2)
    requires !(SelectorProperty in props && EventsProperty in props)
    ensures var sel := scope + (RuleOpen + name + "]");
      Classify(StyleRule(sel, sel + w1 + "{" + m + "}" + w2, props), reg)
        == Invoke(RuleNamespace, name, false, RuleCall(name, ScopeOrAny(scope), "", Trim(m)))
  {
    var sel := scope + (RuleOpen + name + "]");
    Shapes.BareRuleMarker(scope, name);
    Shapes.BareRuleMarkerArguments(scope, name);
    BlockDeclarations(sel, w1, m, w2);
  }

  /** `scope[--js-name="(args)"] { m }` passes the raw argument text on, followed by `, `. */
  lemma StyleRuleWithArguments(reg: Registry, scope: string, name: string, args: string, w1: string, m: string, w2: string, props: seq<string>)
    requires PluginName(name) && name in reg.rule
    requires !Contains(args, RuleOpen) && !Contains(args, ArgsOpen)
    requires AllSpace(w1) && AllSpace(w2)
    requires !(SelectorProperty in props && EventsProperty in props)
    ensures var sel := scope + (RuleOpen + name + ArgsOpen + args + ArgsClose);
      Classify(StyleRule(sel, sel + w1 + "{" + m + "}" + w2, props), reg)
        == Invoke(RuleNamespace, name, false, RuleCall(name, ScopeOrAny(scope), args + ", ", Trim(m)))
  {
    var sel := scope + (RuleOpen + name + ArgsOpen + args + ArgsClose);
    Shapes.RuleMarkerWithArguments(scope, name, args);
    BlockDeclarations(sel, w1, m, w2);
  }

  /** A rule marker naming a plugin the registry lacks is dropped, whatever its body. */
  lemma UnknownRulePlugin(reg: Registry, scope: string, name: string, css: string, props: seq<string>)
    requires PluginName(name) && name !in reg.rule
    ensures Classify(StyleRule(scope + (RuleOpen + name + "]"), css, props), reg) == Dropped
  {
    Shapes.BareRuleMarker(scope, name);
  }

  /**
   * Both override properties declared, but the declarations hold no `;`:
   * neither override pattern matches, and the pass is abandoned.
   */
  lemma CustomRuleWithoutValues(reg: Registry, scope: string, name: string, w1: string, m: string, w2: string, props: seq<string>)
    requires PluginName(name) && name in reg.rule
    requires AllSpace(w1) && AllSpace(w2)
    requires SelectorProperty in props && EventsProperty in props
    requires ';' !in m
    ensures var sel := scope + (RuleOpen + name + "]");
      Classify(StyleRule(sel, sel + w1 + "{" + m + "}" + w2, props), reg) == Crash
  {
    var sel := scope + (RuleOpen + name + "]");
    Shapes.BareRuleMarker(scope, name);
    BlockDeclarations(sel, w1, m, w2);
    NoValue(m, SelectorKey);
  }

  /** A text with no `;` anywhere in `m` has no override value. */
  lemma NoValue(m: string, key: string)
    requires ';' !in m
    ensures FirstValue(Trim(m), key).None?
  {
    var t := Trim(m);
    var i :| Padded(m, t, i);
    assert forall s, e :: !ValueMatch(t, key, s, e);
  }

  /** `@supports (--js-name(args)) { m }` without override names becomes a generic stylesheet-plugin call with the body verbatim. */
  lemma GroupRuleWithArguments(reg: Registry, name: string, args: string, w1: string, m: string, w2: string)
    requires PluginName(name) && name in reg.stylesheet
    requires |args| > 0 && Free(args, '(', 0, |args|)
    requires AllSpace(w1) && AllSpace(w2)
    requires !Contains(m, SelectorProperty)
    ensures var c := GroupOpen + name + "(" + args + GroupClose;
      Classify(SupportsRule(c, SupportsKeyword + c + w1 + "{" + m + "}" + w2), reg)
        == Invoke(StylesheetNamespace, name, false, GroupCall(name, args + ", ", m))
  {
    var c := GroupOpen + name + "(" + args + GroupClose;
    Shapes.GroupMarker(name, args);
    BlockBody(c, w1, m, w2);
  }

  /** The same group rule naming both override properties becomes a custom call carrying the last value of each. */
  lemma CustomGroupRule(reg: Registry, name: string, args: string, w1: string, m: string, w2: string)
    requires PluginName(name) && name in reg.stylesheet
    requires |args| > 0 && Free(args, '(', 0, |args|)
    requires AllSpace(w1) && AllSpace(w2)
    requires Contains(m, SelectorProperty) && Contains(m, EventsProperty)
    ensures var c := GroupOpen + name + "(" + args + GroupClose;
      Classify(SupportsRule(c, SupportsKeyword + c + w1 + "{" + m + "}" + w2), reg)
        == Invoke(StylesheetNamespace, name, true, CustomGroupCall(name, args + ", ", m, LastValue(m, SelectorKey), LastValue(m, EventsKey)))
  {
    var c := GroupOpen + name + "(" + args + GroupClose;
    Shapes.GroupMarker(name, args);
    BlockBody(c, w1, m, w2);
  }

  /**
   * A supports body holding two nested rules that each declare `--selector`:
   * the global replace keeps the second value, where `exec` would give the first.
   */
  lemma NestedRulesBody()
    ensures var m := " a { --selector: p; } b { --selector: r; } ";
      LastValue(m, SelectorKey) == "r" && FirstValue(m, SelectorKey) == Some("p")
  {
    var key := SelectorKey;
    var a, b, rest := " a {", " } b {", " } ";
    SelectorKeyBreaks(a);
    SelectorKeyBreaks(b);
    Shorter(a, key);
    Shorter(b, key);
    Shorter(rest, key);
    Shapes.FirstAndLastDeclaration(a, " ", key, "p", b, " ", "r", rest);
    NestedRulesText();
  }

  /** The nested-rules body, cut at its two declarations. */
  lemma NestedRulesText()
    ensures " a { --selector: p; } b { --selector: r; } "
         == " a {" + " " + SelectorKey + "p" + ";" + " } b {" + " " + SelectorKey + "r" + ";" + " } "
  {
    var x := " a {" + " " + SelectorKey + "p" + ";";
    var y := x + " } b {" + " " + SelectorKey + "r" + ";";
    assert x == " a { --selector: p;";
    assert y == " a { --selector: p; } b { --selector: r;";
  }

  /** `--selector: ` may follow, after one space, a text ending in `;`, `{` or `}`. */
  lemma SelectorKeyBreaks(a: string)
    requires a == [] || a[|a| - 1] in ";{}"
    ensures Shapes.Break(a, " ", SelectorKey)
  {
    assert SelectorKey == ['-', '-', 's', 'e', 'l', 'e', 'c', 't', 'o', 'r', ':', ' '];
  }

  /**
   * `@supports (--js-name())`: with nothing between the inner parentheses the
   * whole condition is taken as the plugin name, which is not registered under
   * that name, so the rule is dropped.
   */
  lemma GroupRuleWithoutArguments(reg: Registry, name: string, css: string)
    requires PluginName(name) && name in reg.stylesheet
    requires GroupOpen + name + "()" + ")" !in reg.stylesheet
    ensures Classify(SupportsRule(GroupOpen + name + "()" + ")", css), reg) == Dropped
  {
    Shapes.GroupMarkerWithoutArguments(name);
  }

  /**
   * `@supports (--js-name(a(b)))`: arguments that open a parenthesis of their
   * own make the plugin name `name(a`, so the rule is dropped unless a plugin
   * is registered under that name.
   */
  lemma GroupRuleWithNestedArguments(reg: Registry, name: string, a: string, b: string, css: string)
    requires PluginName(name) && name in reg.stylesheet
    requires Free(a, '(', 0, |a|) && Free(a, ')', 0, |a|)
    requires Free(b, '(', 0, |b|) && Free(b, ')', 0, |b|)
    requires name + "(" + a !in reg.stylesheet
    ensures var c := GroupOpen + name + "(" + a + "(" + b + ")" + GroupClose;
      Classify(SupportsRule(c, css), reg) == Dropped
  {
    Shapes.GroupMarkerWithNestedArguments(name, a, b);
  }
}
