/**
 * The source text of the plugin invocations the rule fold emits, one
 * builder per branch of index.js, and what each text consists of line by
 * line.
 */
module Invocations {
  import opened Text

  /** A text that fits on one line. */
  predicate OneLine(s: string)
  {
    Free(s, '\n', 0, |s|)
  }

  /** Two texts without a line break make one without a line break. */
  lemma OneLineCat(a: string, b: string)
    requires OneLine(a) && OneLine(b)
    ensures OneLine(a + b)
  {
    forall k | 0 <= k < |a + b|
      ensures (a + b)[k] != '\n'
    {
      if k < |a| {
        assert (a + b)[k] == a[k];
      } else {
        assert (a + b)[k] == b[k - |a|];
      }
    }
  }

  /** Lines of single-line parts around an argument line without a line break are all single lines. */
  lemma LinesOneLine(head: seq<string>, args: string, tail: seq<string>)
    requires forall k | 0 <= k < |head| :: OneLine(head[k])
    requires forall k | 0 <= k < |tail| :: OneLine(tail[k])
    requires OneLine(args)
    ensures var lines := head + ArgLines(args) + tail;
      forall k | 0 <= k < |lines| :: Free(lines[k], '\n', 0, |lines[k]|)
  {
    var lines := head + ArgLines(args) + tail;
    var mid := ArgLines(args);
    if args != [] {
      OneLineCat("    ", args);
    }
    forall k | 0 <= k < |lines|
      ensures OneLine(lines[k])
    {
      if k < |head| {
        assert lines[k] == head[k];
      } else if k < |head| + |mid| {
        assert lines[k] == mid[k - |head|];
      } else {
        assert lines[k] == tail[k - |head| - |mid|];
      }
    }
  }

  /** `args.length ? '    ' + args + '\n' : ''`: the argument line, or nothing. */
  function ArgLine(args: string): (r: string)
    ensures r == [] <==> args == []
  {
    if |args| > 0 then "    " + args + "\n" else ""
  }

  /** The argument line as a list of lines: one line when there are arguments, none otherwise. */
  function ArgLines(args: string): seq<string>
  {
    if args == [] then [] else ["    " + args]
  }

  // ---------------------------------------------------------------------
  // style rules (index.js:83-108)

  /** A rule plugin called with its scope, its arguments and its declarations. */
  function RuleCall(plugin: string, scope: string, args: string, decls: string): string
  {
    plugin + "(\n"
    + "    `" + scope + "`,\n"
    + ArgLine(args)
    + "    `" + decls + "`\n"
    + "  )"
  }

  /** The same call wrapped in its own `jsincss` with the overriding selector and events. */
  function CustomRuleCall(plugin: string, scope: string, args: string, decls: string, selector: string, events: string): string
  {
    "jsincss(() =>\n"
    + "  " + plugin + "(\n"
    + "    `" + scope + "`,\n"
    + ArgLine(args)
    + "    `" + decls + "`\n"
    + "  ),\n"
    + "  " + selector + ",\n"
    + "  " + events + "\n"
    + ")"
  }

  function RuleCallLines(plugin: string, scope: string, args: string, decls: string): seq<string>
  {
    [plugin + "(", "    `" + scope + "`,"] + ArgLines(args) + ["    `" + decls + "`", "  )"]
  }

  /** Lines joined around an optional argument line: the argument line brings its own line break. */
  lemma JoinAroundArgs(head: seq<string>, args: string, tail: seq<string>)
    requires |head| > 0 && |tail| > 0
    ensures Join(head + ArgLines(args) + tail, "\n") == Join(head, "\n") + "\n" + ArgLine(args) + Join(tail, "\n")
  {
    if args == [] {
      assert ArgLines(args) == [] && ArgLine(args) == [];
      DropEmpty(head, tail, Join(head, "\n"), Join(tail, "\n"));
      JoinAppend(head, tail, "\n");
    } else {
      var l := "    " + args;
      assert ArgLines(args) == [l] && ArgLine(args) == l + "\n";
      JoinAroundLine(head, l, tail);
    }
  }

  lemma DropEmpty(head: seq<string>, tail: seq<string>, h: string, t: string)
    ensures head + [] + tail == head + tail
    ensures h + "\n" + [] + t == h + "\n" + t
  {
  }

  lemma JoinAroundLine(head: seq<string>, l: string, tail: seq<string>)
    requires |head| > 0 && |tail| > 0
    ensures Join(head + [l] + tail, "\n") == Join(head, "\n") + "\n" + (l + "\n") + Join(tail, "\n")
  {
    JoinThree(head, [l], tail, "\n");
    Regroup(Join(head, "\n"), "\n", l, "\n", Join(tail, "\n"));
  }

  /** Appending a joined group of three pieces is appending the pieces in turn. */
  lemma Shift3(x: string, a: string, b: string, c: string)
    ensures x + (a + b + c) == x + a + b + c
  {
  }

  /** Appending a joined group of seven pieces is appending the pieces in turn. */
  lemma Shift7(x: string, a: string, b: string, c: string, d: string, e: string, f: string, g: string)
    ensures x + (a + b + c + d + e + f + g) == x + a + b + c + d + e + f + g
  {
  }

  lemma Regroup(a: string, b: string, c: string, d: string, e: string)
    ensures a + b + c + d + e == a + b + (c + d) + e
  {
  }

  /** The rule call with its line breaks separated from its lines. */
  lemma RuleCallText(plugin: string, scope: string, args: string, decls: string)
    ensures RuleCall(plugin, scope, args, decls)
         == (plugin + "(") + "\n" + ("    `" + scope + "`,") + "\n" + ArgLine(args) + ("    `" + decls + "`") + "\n" + "  )"
  {
    assert "(\n" == "(" + "\n";
    assert "`,\n" == "`," + "\n";
    assert "`\n" == "`" + "\n";
  }

  /** A rule call is the plugin name, the quoted scope, the argument line only when there are arguments, the quoted declarations and the closing parenthesis, one per line. */
  lemma RuleCallJoin(plugin: string, scope: string, args: string, decls: string)
    ensures RuleCall(plugin, scope, args, decls) == Join(RuleCallLines(plugin, scope, args, decls), "\n")
  {
    var l0, l1, l3 := plugin + "(", "    `" + scope + "`,", "    `" + decls + "`";
    RuleCallText(plugin, scope, args, decls);
    JoinAroundArgs([l0, l1], args, [l3, "  )"]);
    JoinTwo(l0, l1, "\n");
    JoinTwo(l3, "  )", "\n");
    Shift3(l0 + "\n" + l1 + "\n" + ArgLine(args), l3, "\n", "  )");
  }

  /** Split at its line breaks, a rule call gives back its lines when no part holds a line break. */
  lemma RuleCallByLines(plugin: string, scope: string, args: string, decls: string)
    requires OneLine(plugin) && OneLine(scope) && OneLine(args) && OneLine(decls)
    ensures Split(RuleCall(plugin, scope, args, decls), '\n') == RuleCallLines(plugin, scope, args, decls)
  {
    var l0, l1, l3 := plugin + "(", "    `" + scope + "`,", "    `" + decls + "`";
    RuleCallJoin(plugin, scope, args, decls);
    OneLineCat(plugin, "(");
    OneLineCat("    `", scope);
    OneLineCat("    `" + scope, "`,");
    OneLineCat("    `", decls);
    OneLineCat("    `" + decls, "`");
    assert OneLine("  )");
    LinesOneLine([l0, l1], args, [l3, "  )"]);
    SplitJoin(RuleCallLines(plugin, scope, args, decls), '\n');
  }

  /** The custom call wraps the generic call, its first line set two spaces in, then adds the selector and the events. */
  lemma CustomRuleWrapsRuleCall(plugin: string, scope: string, args: string, decls: string, selector: string, events: string)
    ensures CustomRuleCall(plugin, scope, args, decls, selector, events)
         == "jsincss(() =>\n  " + RuleCall(plugin, scope, args, decls) + ",\n  " + selector + ",\n  " + events + "\n)"
  {
    var al := ArgLine(args);
    var x := "jsincss(() =>\n  ";
    // the custom call, left to right, up to the end of the inner call
    var y := x + plugin + "(\n" + "    `" + scope + "`,\n" + al + "    `" + decls + "`\n";
    assert "jsincss(() =>\n" + "  " == x;
    Shift10(x, plugin, "(\n", "    `", scope, "`,\n", al, "    `", decls, "`\n", "  )");
    Rebracket(y, "  )", ",\n  ", "  ),\n", "  ");
    Rebracket(y + "  ),\n" + "  " + selector, ",\n  ", events, ",\n" + "  ", events);
    Rebracket(y + "  ),\n" + "  " + selector, ",\n" + "  ", events, ",\n", "  " + events);
    Rebracket(y + "  ),\n" + "  " + selector + ",\n" + "  " + events, "\n)", [], "\n", ")");
  }

  /** Appending a group of ten pieces is appending the pieces in turn. */
  lemma Shift10(x: string, a: string, b: string, c: string, d: string, e: string, f: string, g: string, h: string, i: string, j: string)
    ensures x + (a + b + c + d + e + f + g + h + i + j) == x + a + b + c + d + e + f + g + h + i + j
  {
  }

  /** Equal tails give equal texts. */
  lemma Rebracket(y: string, a: string, b: string, c: string, d: string)
    requires a + b == c + d
    ensures y + a + b == y + c + d
  {
    assert y + a + b == y + (a + b);
    assert y + c + d == y + (c + d);
  }

  // ---------------------------------------------------------------------
  // @supports rules (index.js:153-177)

  /** A stylesheet plugin called with its arguments and its body, the body on lines of its own. */
  function GroupCall(plugin: string, args: string, body: string): string
  {
    plugin + "(\n"
    + ArgLine(args)
    + "    `\n"
    + body + "\n"
    + "  `\n"
    + ")"
  }

  /** The same plugin wrapped in its own `jsincss`, the body inline, with the overriding selector and events. */
  function CustomGroupCall(plugin: string, args: string, body: string, selector: string, events: string): string
  {
    "jsincss(() =>\n"
    + "  " + plugin + "(\n"
    + ArgLine(args)
    + "    `" + body
    + "  `),\n"
    + "  " + selector + ",\n"
    + "  " + events + "\n"
    + ")"
  }

  function GroupCallLines(plugin: string, args: string, body: string): seq<string>
  {
    [plugin + "("] + ArgLines(args) + ["    `", body, "  `", ")"]
  }

  function CustomGroupCallLines(plugin: string, args: string, body: string, selector: string, events: string): seq<string>
  {
    ["jsincss(() =>", "  " + plugin + "("] + ArgLines(args) + ["    `" + body + "  `),", "  " + selector + ",", "  " + events, ")"]
  }

  /** The group call with its line breaks separated from its lines. */
  lemma GroupCallText(plugin: string, args: string, body: string)
    ensures GroupCall(plugin, args, body)
         == (plugin + "(") + "\n" + ArgLine(args) + "    `" + "\n" + body + "\n" + "  `" + "\n" + ")"
  {
    assert "(\n" == "(" + "\n";
    assert "    `\n" == "    `" + "\n";
    assert "  `\n" == "  `" + "\n";
  }

  /** A group call is the plugin name, the argument line only when there are arguments, then the body between two backtick lines. */
  lemma GroupCallJoin(plugin: string, args: string, body: string)
    ensures GroupCall(plugin, args, body) == Join(GroupCallLines(plugin, args, body), "\n")
  {
    GroupCallText(plugin, args, body);
    JoinAroundArgs([plugin + "("], args, ["    `", body, "  `", ")"]);
    JoinFour("    `", body, "  `", ")", "\n");
    Shift7(plugin + "(" + "\n" + ArgLine(args), "    `", "\n", body, "\n", "  `", "\n", ")");
  }

  /** Split at its line breaks, a group call gives back its lines when no part holds a line break. */
  lemma GroupCallByLines(plugin: string, args: string, body: string)
    requires OneLine(plugin) && OneLine(args) && OneLine(body)
    ensures Split(GroupCall(plugin, args, body), '\n') == GroupCallLines(plugin, args, body)
  {
    GroupCallJoin(plugin, args, body);
    OneLineCat(plugin, "(");
    assert OneLine("    `") && OneLine("  `") && OneLine(")");
    LinesOneLine([plugin + "("], args, ["    `", body, "  `", ")"]);
    SplitJoin(GroupCallLines(plugin, args, body), '\n');
  }

  /** The custom group call with its line breaks separated from its lines. */
  lemma CustomGroupCallText(plugin: string, args: string, body: string, selector: string, events: string)
    ensures CustomGroupCall(plugin, args, body, selector, events)
         == "jsincss(() =>" + "\n" + ("  " + plugin + "(") + "\n" + ArgLine(args) + ("    `" + body + "  `),") + "\n"
            + ("  " + selector + ",") + "\n" + ("  " + events) + "\n" + ")"
  {
    var al := ArgLine(args);
    var a := "jsincss(() =>\n" + "  " + plugin + "(\n";
    var b := "    `" + body + "  `),\n";
    var c := "  " + selector + ",\n" + "  " + events + "\n" + ")";
    assert CustomGroupCall(plugin, args, body, selector, events) == a + al + b + c;
    assert a == "jsincss(() =>" + "\n" + ("  " + plugin + "(") + "\n";
    assert b == ("    `" + body + "  `),") + "\n";
    assert c == ("  " + selector + ",") + "\n" + ("  " + events) + "\n" + ")";
    assert a + al + b + c
        == "jsincss(() =>" + "\n" + ("  " + plugin + "(") + "\n" + al + ("    `" + body + "  `),") + "\n"
           + ("  " + selector + ",") + "\n" + ("  " + events) + "\n" + ")";
  }

  /** A custom group call is `jsincss(() =>`, the plugin, the argument line only when there are arguments, the inline body, the selector and the events. */
  lemma CustomGroupCallJoin(plugin: string, args: string, body: string, selector: string, events: string)
    ensures CustomGroupCall(plugin, args, body, selector, events) == Join(CustomGroupCallLines(plugin, args, body, selector, events), "\n")
  {
    CustomGroupCallText(plugin, args, body, selector, events);
    var l0, l1 := "jsincss(() =>", "  " + plugin + "(";
    var l3, l4, l5 := "    `" + body + "  `),", "  " + selector + ",", "  " + events;
    JoinAroundArgs([l0, l1], args, [l3, l4, l5, ")"]);
    JoinTwo(l0, l1, "\n");
    JoinFour(l3, l4, l5, ")", "\n");
    Shift7(l0 + "\n" + l1 + "\n" + ArgLine(args), l3, "\n", l4, "\n", l5, "\n", ")");
  }

  /** Split at its line breaks, a custom group call gives back its lines when no part holds a line break. */
  lemma CustomGroupCallByLines(plugin: string, args: string, body: string, selector: string, events: string)
    requires OneLine(plugin) && OneLine(args) && OneLine(body) && OneLine(selector) && OneLine(events)
    ensures Split(CustomGroupCall(plugin, args, body, selector, events), '\n') == CustomGroupCallLines(plugin, args, body, selector, events)
  {
    var l0, l1 := "jsincss(() =>", "  " + plugin + "(";
    var l3, l4, l5 := "    `" + body + "  `),", "  " + selector + ",", "  " + events;
    CustomGroupCallJoin(plugin, args, body, selector, events);
    assert OneLine(l0) && OneLine("  ") && OneLine(")");
    OneLineCat("  ", plugin);
    OneLineCat("  " + plugin, "(");
    OneLineCat("    `", body);
    OneLineCat("    `" + body, "  `),");
    OneLineCat("  ", selector);
    OneLineCat("  " + selector, ",");
    OneLineCat("  ", events);
    LinesOneLine([l0, l1], args, [l3, l4, l5, ")"]);
    SplitJoin(CustomGroupCallLines(plugin, args, body, selector, events), '\n');
  }
}
