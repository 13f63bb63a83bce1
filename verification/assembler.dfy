/**
 * The output assembler of index.js:203-275: the record the rule fold builds
 * becomes one script, made of the jsincss runtime and the used plugins, the
 * generic invocations, the custom invocations, and either a style element
 * holding the passed-through CSS or, when an output CSS path is given, a
 * separate CSS text.
 */
module Assembler {
  import opened Text
  import opened Objects
  import opened Rules

  /** What one pass writes: the script, and the rendered CSS when an output CSS path is given. */
  datatype Artifacts = Artifacts(js: string, css: Option<string>)

  const RuntimeHeader: string := "// jsincss\n"
  const GenericHeader: string := "\n" + "// JS-powered rules with default event listeners\n"
  const CustomHeader: string := "\n" + "// JS-powered rules with custom event listeners\n"
  const StyleHeader: string := "\n" + "\n// Original CSS\n"
  const StyleTail: string := "document.head.appendChild(style)"

  /** Every used plugin has a source in the registry of its kind. */
  predicate Registered(out: Output, reg: Registry)
  {
    && (forall k | k in out.stylesheetPlugins.keys :: k in reg.stylesheet)
    && (forall k | k in out.rulePlugins.keys :: k in reg.rule)
  }

  // ---------------------------------------------------------------------
  // the runtime and the plugins (index.js:206-234)

  /** `names.map(plugin => lead + `const ${plugin} = ${source}`)`. */
  function PluginConstants(names: seq<string>, sources: map<string, string>, lead: string): seq<string>
    requires forall k | k in names :: k in sources
  {
    seq(|names|, i requires 0 <= i < |names| => lead + "const " + names[i] + " = " + sources[names[i]])
  }

  /** The used stylesheet plugins, joined with nothing between them. */
  function StylesheetConstants(out: Output, reg: Registry): string
    requires Registered(out, reg)
  {
    var names := out.stylesheetPlugins.keys;
    if names == [] then [] else Join(PluginConstants(names, reg.stylesheet, ""), "") + "\n"
  }

  /** The used rule plugins, each preceded by a line break and joined by another. */
  function RuleConstants(out: Output, reg: Registry): string
    requires Registered(out, reg)
  {
    var names := out.rulePlugins.keys;
    if names == [] then [] else Join(PluginConstants(names, reg.rule, "\n"), "\n") + "\n"
  }

  /** The runtime and the used plugins, present only when some plugin was used. */
  function Prelude(out: Output, reg: Registry, runtime: string): (r: string)
    requires Registered(out, reg)
    ensures r == [] <==> out.stylesheetPlugins.keys == [] && out.rulePlugins.keys == []
    ensures r != [] ==> At(r, RuntimeHeader, 0)
  {
    if out.stylesheetPlugins.keys == [] && out.rulePlugins.keys == [] then []
    else
      var rest := PreludeRest(out, reg, runtime);
      AtLeft(RuntimeHeader, rest, RuntimeHeader, 0);
      RuntimeHeader + rest
  }

  /** The prelude after its first line. */
  function PreludeRest(out: Output, reg: Registry, runtime: string): string
    requires Registered(out, reg)
  {
    "const jsincss = " + runtime + "\n" + "\n// jsincss plugins\n"
      + (StylesheetConstants(out, reg) + RuleConstants(out, reg)) + "\n"
  }

  /** Every used plugin is declared in the prelude as a constant holding its registered source. */
  lemma PreludeDeclares(out: Output, reg: Registry, runtime: string, k: string)
    requires Registered(out, reg)
    ensures k in out.stylesheetPlugins.keys ==> Contains(Prelude(out, reg, runtime), "const " + k + " = " + reg.stylesheet[k])
    ensures k in out.rulePlugins.keys ==> Contains(Prelude(out, reg, runtime), "\nconst " + k + " = " + reg.rule[k])
  {
    var ss := StylesheetConstants(out, reg);
    var rs := RuleConstants(out, reg);
    if k in out.stylesheetPlugins.keys {
      var names := out.stylesheetPlugins.keys;
      var i :| 0 <= i < |names| && names[i] == k;
      var xs := PluginConstants(names, reg.stylesheet, "");
      assert xs[i] == "const " + k + " = " + reg.stylesheet[k];
      JoinContains(xs, "", i);
      ContainsLeft(Join(xs, ""), "\n", xs[i]);
      ContainsLeft(ss, rs, xs[i]);
      PreludeHolds(out, reg, runtime, xs[i]);
    }
    if k in out.rulePlugins.keys {
      var names := out.rulePlugins.keys;
      var i :| 0 <= i < |names| && names[i] == k;
      var xs := PluginConstants(names, reg.rule, "\n");
      assert xs[i] == "\nconst " + k + " = " + reg.rule[k];
      JoinContains(xs, "\n", i);
      ContainsLeft(Join(xs, "\n"), "\n", xs[i]);
      ContainsRight(ss, rs, xs[i]);
      PreludeHolds(out, reg, runtime, xs[i]);
    }
  }

  /** A text among the plugin constants is in the prelude. */
  lemma PreludeHolds(out: Output, reg: Registry, runtime: string, x: string)
    requires Registered(out, reg)
    requires out.stylesheetPlugins.keys != [] || out.rulePlugins.keys != []
    requires Contains(StylesheetConstants(out, reg) + RuleConstants(out, reg), x)
    ensures Contains(Prelude(out, reg, runtime), x)
  {
    var head := "const jsincss = " + runtime + "\n" + "\n// jsincss plugins\n";
    var mid := StylesheetConstants(out, reg) + RuleConstants(out, reg);
    ContainsRight(head, mid, x);
    ContainsLeft(head + mid, "\n", x);
    assert PreludeRest(out, reg, runtime) == head + mid + "\n";
    ContainsRight(RuntimeHeader, PreludeRest(out, reg, runtime), x);
  }

  // ---------------------------------------------------------------------
  // the invocations (index.js:238-259)

  /**
   * `new Function(body)` as `join` turns it into text: CreateDynamicFunction
   * (section 20.2.1.1.1 of ECMA-262) gives the function this source text.
   */
  function FunctionSource(body: string): string
  {
    "function anonymous(\n) {\n" + body + "\n}"
  }

  /** Each generic invocation made the body of a function returning it. */
  function Wrapped(generic: seq<string>): seq<string>
  {
    seq(|generic|, i requires 0 <= i < |generic| => FunctionSource("  return " + generic[i]))
  }

  /** One `jsincss` call running every generic invocation, present only when there is one. */
  function GenericSection(generic: seq<string>): (r: string)
    ensures r == [] <==> generic == []
    ensures r != [] ==> r[0] == '\n'
  {
    if generic == [] then [] else GenericOpen + (Join(Wrapped(generic), ",\n") + GenericClose)
  }

  const GenericOpen: string := GenericHeader + "jsincss(() =>\n" + "  [\n"
  const GenericClose: string := "\n" + "  ]\n" + "  .map(func => func())\n" + "  .join(``)\n" + ")\n"

  /** The custom invocations one per line, present only when there is one. */
  function CustomSection(custom: seq<string>): (r: string)
    ensures r == [] <==> custom == []
    ensures r != [] ==> r[0] == '\n'
  {
    if custom == [] then [] else CustomHeader + Join(custom, "\n")
  }

  /**
   * The generic invocations appear in their section in list order, each
   * wrapped in its function, with `,\n` between neighbours.
   */
  lemma GenericLists(generic: seq<string>)
    ensures Listed(GenericSection(generic), Wrapped(generic), ",\n", |GenericOpen|)
  {
    if generic != [] {
      JoinListed(GenericOpen, Wrapped(generic), ",\n", GenericClose);
    }
  }

  /** The custom invocations appear verbatim in their section in list order, one line break between neighbours. */
  lemma CustomLists(custom: seq<string>)
    ensures Listed(CustomSection(custom), custom, "\n", |CustomHeader|)
  {
    if custom != [] {
      JoinListed(CustomHeader, custom, "\n", []);
      assert CustomSection(custom) == CustomHeader + (Join(custom, "\n") + []);
    }
  }

  // ---------------------------------------------------------------------
  // the passed-through CSS (index.js:262-275)

  /**
   * `s.replace(/`/g, '\`')`: in a single-quoted JavaScript literal `\`` is
   * a backtick, so each backtick is replaced by a backtick.
   */
  function EscapeBackticks(s: string): string
    decreases |s|
  {
    if s == [] then [] else (if s[0] == '`' then "`" else [s[0]]) + EscapeBackticks(s[1..])
  }

  /** The replacement leaves every text as it was. */
  lemma {:induction false} EscapeKeepsText(s: string)
    ensures EscapeBackticks(s) == s
    decreases |s|
  {
    if s != [] {
      EscapeKeepsText(s[1..]);
      assert s == [s[0]] + s[1..];
    }
  }

  /** A style element whose text is the rendered CSS, appended to the document head. */
  function StyleSection(rendered: string): (r: string)
    ensures |r| > |StyleTail| && r[0] == '\n'
    ensures Contains(r, rendered)
    ensures At(r, StyleTail, |r| - |StyleTail|)
  {
    EscapeKeepsText(rendered);
    Framed(StyleOpen, rendered, "\n`\n\n");
    StyleOpen + EscapeBackticks(rendered) + ("\n`\n\n" + StyleTail)
  }

  const StyleOpen: string := StyleHeader + "let style = document.createElement(`style`)\n\n" + "style.textContent = `\n"

  /** Text framed by `a` before and `b` and the closing statement after holds the text and ends with the statement. */
  lemma Framed(a: string, m: string, b: string)
    requires |a| > 0
    ensures var r := a + m + (b + StyleTail);
      |r| > |StyleTail| && r[0] == a[0] && Contains(r, m) && At(r, StyleTail, |r| - |StyleTail|)
  {
    assert At(m, m, 0);
    ContainsRight(a, m, m);
    ContainsLeft(a + m, b + StyleTail, m);
    AtRight(a + m + b, StyleTail, StyleTail, 0);
    assert a + m + (b + StyleTail) == a + m + b + StyleTail;
  }

  // ---------------------------------------------------------------------
  // the whole output

  /** The script up to the style element. */
  function Head(out: Output, reg: Registry, runtime: string): string
    requires Registered(out, reg)
  {
    Prelude(out, reg, runtime) + (GenericSection(out.generic) + CustomSection(out.custom))
  }

  /** The style element closing the script, when there is no output CSS path. */
  function StyleElement(out: Output, cssPath: string): string
  {
    if cssPath != [] then [] else StyleSection(Join(out.css, "\n"))
  }

  /**
   * The files of one pass: with an output CSS path the rendered CSS is its own
   * text; without one it is embedded in the script, which then ends by
   * appending it to the document.
   */
  function Assemble(out: Output, reg: Registry, runtime: string, cssPath: string): (r: Artifacts)
    requires Registered(out, reg)
    ensures r.css.Some? <==> cssPath != []
    ensures r.css.Some? ==> r.css.value == Join(out.css, "\n")
    ensures r.css.None? ==> EndsWithStyle(r.js, Join(out.css, "\n"))
  {
    var head, rendered := Head(out, reg, runtime), Join(out.css, "\n");
    if cssPath != [] then Artifacts(head, Some(rendered))
    else
      EmbedAtEnd(head, StyleSection(rendered), rendered);
      Artifacts(head + StyleSection(rendered), None)
  }

  /** The script is the head followed by the style element. */
  lemma ScriptParts(out: Output, reg: Registry, runtime: string, cssPath: string)
    requires Registered(out, reg)
    ensures Assemble(out, reg, runtime, cssPath).js == Head(out, reg, runtime) + StyleElement(out, cssPath)
  {
    assert Head(out, reg, runtime) + [] == Head(out, reg, runtime);
  }

  /** The script holds the rendered CSS and ends by appending the style element to the document head. */
  predicate EndsWithStyle(js: string, rendered: string)
  {
    Contains(js, rendered) && At(js, StyleTail, |js| - |StyleTail|)
  }

  /** A style element closing a script keeps its text and its last statement there. */
  lemma EmbedAtEnd(head: string, tail: string, rendered: string)
    requires Contains(tail, rendered) && |tail| >= |StyleTail| && At(tail, StyleTail, |tail| - |StyleTail|)
    ensures EndsWithStyle(head + tail, rendered)
  {
    ContainsRight(head, tail, rendered);
    AtRight(head, tail, StyleTail, |tail| - |StyleTail|);
  }

  /**
   * The script opens with the runtime exactly when some plugin was used, and
   * is empty exactly when nothing was used or invoked and the CSS has its own file.
   */
  lemma ScriptOpens(out: Output, reg: Registry, runtime: string, cssPath: string)
    requires Registered(out, reg)
    ensures var js := Assemble(out, reg, runtime, cssPath).js;
      && (At(js, RuntimeHeader, 0) <==> out.stylesheetPlugins.keys != [] || out.rulePlugins.keys != [])
      && (js == [] <==> out.stylesheetPlugins.keys == [] && out.rulePlugins.keys == [] && out.generic == [] && out.custom == [] && cssPath != [])
  {
    ScriptParts(out, reg, runtime, cssPath);
    SectionsOpen(Prelude(out, reg, runtime), GenericSection(out.generic), CustomSection(out.custom), StyleElement(out, cssPath));
  }

  /** After an empty prelude the script is empty or opens with a line break, so the runtime header marks a non-empty prelude. */
  lemma SectionsOpen(prelude: string, g: string, c: string, t: string)
    requires prelude != [] ==> At(prelude, RuntimeHeader, 0)
    requires g != [] ==> g[0] == '\n'
    requires c != [] ==> c[0] == '\n'
    requires t != [] ==> t[0] == '\n'
    ensures At(prelude + (g + c) + t, RuntimeHeader, 0) <==> prelude != []
    ensures prelude + (g + c) + t == [] <==> prelude == [] && g == [] && c == [] && t == []
  {
    var js := prelude + (g + c) + t;
    if prelude != [] {
      AtLeft(prelude, (g + c) + t, RuntimeHeader, 0);
      assert js == prelude + ((g + c) + t);
    } else if js != [] {
      assert js[0] == '\n';
      assert RuntimeHeader[0] == '/';
    }
  }

  /**
   * `new Function('  return ' + call)` throws a SyntaxError for some generic
   * invocation: `parses` is the engine's judgement of a function body.
   */
  predicate Rejects(generic: seq<string>, parses: string -> bool)
  {
    exists i | 0 <= i < |generic| :: !parses("  return " + generic[i])
  }

  /** The rule becomes a generic invocation whose function body the engine rejects. */
  predicate Unparsable(rule: Rule, reg: Registry, parses: string -> bool)
  {
    var route := Classify(rule, reg);
    route.Invoke? && !route.custom && !parses("  return " + route.call)
  }

  /**
   * The whole compiler after the browser: the fold over every rule of every
   * style sheet, then the assembly. Nothing is written when the fold is
   * abandoned, or when building the generic section throws.
   */
  function Compile(reg: Registry, runtime: string, parses: string -> bool, sheets: seq<seq<Rule>>, cssPath: string): (r: Option<Artifacts>)
    ensures r.None? <==>
      (exists rule | rule in Flatten(sheets) :: Fails(rule, reg))
      || (exists rule | rule in Flatten(sheets) :: Unparsable(rule, reg, parses))
  {
    var rules := Flatten(sheets);
    RunCompletes(reg, Initial, rules);
    match Run(reg, Initial, rules)
    case Aborted => None
    case Ok(o) =>
      UsedPlugins(reg, rules);
      RejectedCalls(reg, rules, parses);
      if Rejects(o.generic, parses) then None else Some(Assemble(o, reg, runtime, cssPath))
  }

  /** After a completed fold, the engine rejects a generic section exactly when some rule's generic call does not parse. */
  lemma RejectedCalls(reg: Registry, rules: seq<Rule>, parses: string -> bool)
    requires Run(reg, Initial, rules).Ok?
    ensures Rejects(Run(reg, Initial, rules).output.generic, parses)
      <==> exists rule | rule in rules :: Unparsable(rule, reg, parses)
  {
    var routes := Routes(reg, rules);
    RunSummary(reg, Initial, rules);
    assert Run(reg, Initial, rules).output.generic == [] + CallTexts(routes, false);
    assert [] + CallTexts(routes, false) == CallTexts(routes, false);
    CallsRejected(reg, rules, routes, parses);
  }

  /** The generic calls of the routes hold a rejected body exactly when some rule's generic call does not parse. */
  lemma CallsRejected(reg: Registry, rules: seq<Rule>, routes: seq<Route>, parses: string -> bool)
    requires |routes| == |rules| && forall j | 0 <= j < |rules| :: routes[j] == Classify(rules[j], reg)
    ensures Rejects(CallTexts(routes, false), parses) <==> exists rule | rule in rules :: Unparsable(rule, reg, parses)
  {
    var generic := CallTexts(routes, false);
    if Rejects(generic, parses) {
      var i :| 0 <= i < |generic| && !parses("  return " + generic[i]);
      CallTextsFrom(routes, false, generic[i]);
      var j :| 0 <= j < |routes| && routes[j].Invoke? && !routes[j].custom && routes[j].call == generic[i];
      assert Unparsable(rules[j], reg, parses);
      assert rules[j] in rules;
    }
    if rule :| rule in rules && Unparsable(rule, reg, parses) {
      var j :| 0 <= j < |rules| && rules[j] == rule;
      CallTextsHold(routes, j);
      var i :| 0 <= i < |generic| && generic[i] == routes[j].call;
    }
  }

  /** A pass that completes assembles the record of the completed fold. */
  lemma CompileOutput(reg: Registry, runtime: string, parses: string -> bool, sheets: seq<seq<Rule>>, cssPath: string)
    requires Compile(reg, runtime, parses, sheets, cssPath).Some?
    ensures Run(reg, Initial, Flatten(sheets)).Ok?
    ensures var o := Run(reg, Initial, Flatten(sheets)).output;
      Registered(o, reg) && Compile(reg, runtime, parses, sheets, cssPath) == Some(Assemble(o, reg, runtime, cssPath))
  {
    var rules := Flatten(sheets);
    RunCompletes(reg, Initial, rules);
    UsedPlugins(reg, rules);
  }

  // ---------------------------------------------------------------------
  // end to end

  /**
   * Style sheets without a JS-powered rule compile to their CSS alone: the
   * rendered text of every rule, either embedded in a style element or as
   * the CSS file next to an empty script.
   */
  lemma PlainStylesheets(reg: Registry, runtime: string, parses: string -> bool, sheets: seq<seq<Rule>>, cssPath: string)
    requires forall rule | rule in Flatten(sheets) :: !Powered(rule)
    ensures var rendered := Join(PlainTexts(Flatten(sheets)), "\n");
      Compile(reg, runtime, parses, sheets, cssPath)
        == Some(if cssPath == [] then Artifacts(StyleSection(rendered), None) else Artifacts([], Some(rendered)))
  {
    var rules := Flatten(sheets);
    forall i | 0 <= i < |rules|
      ensures !Powered(rules[i])
    {
      assert rules[i] in rules;
    }
    PlainRun(reg, Initial, rules);
    assert [] + PlainTexts(rules) == PlainTexts(rules);
    var o := Initial.(css := PlainTexts(rules));
    assert Run(reg, Initial, rules) == Ok(o);
    assert !Rejects(o.generic, parses);
    AssemblePlain(PlainTexts(rules), reg, runtime, cssPath);
  }

  /** A record with nothing used or invoked assembles to its CSS alone. */
  lemma AssemblePlain(css: seq<string>, reg: Registry, runtime: string, cssPath: string)
    ensures var rendered := Join(css, "\n");
      Assemble(Initial.(css := css), reg, runtime, cssPath)
        == if cssPath == [] then Artifacts(StyleSection(rendered), None) else Artifacts([], Some(rendered))
  {
    var o := Initial.(css := css);
    assert Prelude(o, reg, runtime) == [];
    assert Head(o, reg, runtime) == [] + ([] + []);
  }

  /** The script starts with the jsincss runtime exactly when some rule invoked a registered plugin. */
  lemma RuntimeWhenInvoked(reg: Registry, runtime: string, parses: string -> bool, sheets: seq<seq<Rule>>, cssPath: string)
    requires Compile(reg, runtime, parses, sheets, cssPath).Some?
    ensures var routes, js := Routes(reg, Flatten(sheets)), Compile(reg, runtime, parses, sheets, cssPath).value.js;
      At(js, RuntimeHeader, 0) <==> exists i | 0 <= i < |routes| :: routes[i].Invoke?
  {
    var rules := Flatten(sheets);
    CompileOutput(reg, runtime, parses, sheets, cssPath);
    var o := Run(reg, Initial, rules).output;
    ScriptOpens(o, reg, runtime, cssPath);
    AnyPluginUsed(reg, rules);
  }

  /** Some plugin is recorded as used exactly when some rule invokes one. */
  lemma AnyPluginUsed(reg: Registry, rules: seq<Rule>)
    requires Run(reg, Initial, rules).Ok?
    ensures var o, routes := Run(reg, Initial, rules).output, Routes(reg, rules);
      (o.stylesheetPlugins.keys != [] || o.rulePlugins.keys != []) <==> exists i | 0 <= i < |routes| :: routes[i].Invoke?
  {
    RunSummary(reg, Initial, rules);
    SummaryUsed(Routes(reg, rules));
  }

  /** Every invocation of a completed pass is in the script: generic ones wrapped in a function, custom ones verbatim. */
  lemma InvocationsEmitted(reg: Registry, runtime: string, parses: string -> bool, sheets: seq<seq<Rule>>, cssPath: string, i: nat)
    requires Compile(reg, runtime, parses, sheets, cssPath).Some?
    requires i < |Flatten(sheets)| && Classify(Flatten(sheets)[i], reg).Invoke?
    ensures var route, js := Classify(Flatten(sheets)[i], reg), Compile(reg, runtime, parses, sheets, cssPath).value.js;
      Contains(js, if route.custom then route.call else FunctionSource("  return " + route.call))
  {
    var rules := Flatten(sheets);
    CompileOutput(reg, runtime, parses, sheets, cssPath);
    var route := Classify(rules[i], reg);
    RunKeepsCalls(reg, Initial, rules, i);
    CallEmitted(Run(reg, Initial, rules).output, reg, runtime, cssPath, route.call, route.custom);
  }

  /** A call in one of the two invocation lists is in the script. */
  lemma CallEmitted(o: Output, reg: Registry, runtime: string, cssPath: string, call: string, custom: bool)
    requires Registered(o, reg)
    requires call in (if custom then o.custom else o.generic)
    ensures Contains(Assemble(o, reg, runtime, cssPath).js, if custom then call else FunctionSource("  return " + call))
  {
    var x := if custom then call else FunctionSource("  return " + call);
    var g := GenericSection(o.generic);
    var c := CustomSection(o.custom);
    if custom {
      var j :| 0 <= j < |o.custom| && o.custom[j] == call;
      CustomLists(o.custom);
      ListedContains(c, o.custom, "\n", |CustomHeader|, j);
      ContainsRight(g, c, x);
    } else {
      var j :| 0 <= j < |o.generic| && o.generic[j] == call;
      GenericLists(o.generic);
      ListedContains(g, Wrapped(o.generic), ",\n", |GenericOpen|, j);
      ContainsLeft(g, c, x);
    }
    ContainsRight(Prelude(o, reg, runtime), g + c, x);
    ContainsLeft(Prelude(o, reg, runtime) + (g + c), StyleElement(o, cssPath), x);
    ScriptParts(o, reg, runtime, cssPath);
  }

  /**
   * With an output CSS path, the CSS file read back line by line gives the
   * text of every rule that is not powered, in order, when no such text
   * holds a line break and there is at least one.
   */
  lemma CssFileLines(reg: Registry, runtime: string, parses: string -> bool, sheets: seq<seq<Rule>>, cssPath: string)
    requires cssPath != [] && Compile(reg, runtime, parses, sheets, cssPath).Some?
    requires var texts := PlainTexts(Flatten(sheets));
      |texts| > 0 && forall k | 0 <= k < |texts| :: Free(texts[k], '\n', 0, |texts[k]|)
    ensures Compile(reg, runtime, parses, sheets, cssPath).value.css.Some?
    ensures Split(Compile(reg, runtime, parses, sheets, cssPath).value.css.value, '\n') == PlainTexts(Flatten(sheets))
  {
    var rules := Flatten(sheets);
    CompileOutput(reg, runtime, parses, sheets, cssPath);
    PassesThrough(reg, Initial, rules);
    assert [] + PlainTexts(rules) == PlainTexts(rules);
    SplitJoin(PlainTexts(rules), '\n');
  }

  // ---------------------------------------------------------------------
  // text helpers

  /** An occurrence in the left operand of a concatenation is one in the whole. */
  lemma ContainsLeft(a: string, b: string, x: string)
    requires Contains(a, x)
    ensures Contains(a + b, x)
  {
    var i :| 0 <= i <= |a| && At(a, x, i);
    AtLeft(a, b, x, i);
    assert At(a + b, x, i);
  }

  /** An occurrence in the right operand of a concatenation is one in the whole. */
  lemma ContainsRight(a: string, b: string, x: string)
    requires Contains(b, x)
    ensures Contains(a + b, x)
  {
    var i :| 0 <= i <= |b| && At(b, x, i);
    AtRight(a, b, x, i);
    assert At(a + b, x, |a| + i);
  }

  /** Each element of a joined list occurs in the joined text. */
  lemma JoinContains(xs: seq<string>, sep: string, i: nat)
    requires i < |xs|
    ensures Contains(Join(xs, sep), xs[i])
  {
    JoinHolds(xs, sep, i);
    assert At(Join(xs, sep), xs[i], JoinOffset(xs, sep, i));
  }
}
