/**
 * What the marker scanners extract from the well-formed marker shapes:
 *   scope + `[--js-name]`,
 *   scope + `[--js-name="(args)"]`,
 *   `(--js-name(args))`,
 * and what the override scanners extract from declaration text.
 */
module Shapes {
  import opened Text
  import opened Markers

  /** The character facts every shape proof needs about the marker openings. */
  lemma OpeningChars()
    ensures forall k | 1 <= k < |RuleOpen| :: RuleOpen[k] != '[' && RuleOpen[k] != ')'
    ensures forall k | 0 <= k < |RuleOpen| :: RuleOpen[k] != '=' && RuleOpen[k] != ')' && RuleOpen[k] != '('
    ensures forall k | 0 <= k < |GroupOpen| :: GroupOpen[k] != ')'
    ensures forall k | 1 <= k < |GroupOpen| :: GroupOpen[k] != '('
  {
  }

  /** `sel` holds no `[` after position `n`, so no rule marker opens there. */
  lemma NoRuleOpenAfter(sel: string, n: nat, p: int)
    requires forall j | n < j < |sel| :: sel[j] != '['
    requires At(sel, RuleOpen, p)
    ensures p <= n
  {
    AtStartsWith(sel, RuleOpen, p);
  }

  /** `scope[--js-name]`: the scope, the name and no arguments. */
  lemma BareRuleMarker(scope: string, name: string)
    requires PluginName(name)
    ensures var sel := scope + (RuleOpen + name + "]");
      && Contains(sel, Marker)
      && StylePluginName(sel) == name
      && ScopeSelector(sel) == (if scope == [] then "*" else scope)
  {
    var tail := RuleOpen + name + "]";
    var sel := scope + tail;
    var n := |scope|;
    OpeningChars();
    assert tail[..|RuleOpen|] == RuleOpen;
    assert At(tail, RuleOpen, 0);
    AtRight(scope, tail, RuleOpen, 0);
    assert At(tail[1..], Marker, 0) by {
      assert tail[1..][..|Marker|] == Marker;
    }
    AtRight(scope + [tail[0]], tail[1..], Marker, 0);
    assert sel == scope + [tail[0]] + tail[1..];
    assert At(sel, Marker, n + 1);
    forall j | n < j < |sel|
      ensures sel[j] != '[' && sel[j] != '='
    {
      if j < n + 6 {
        assert sel[j] == RuleOpen[j - n];
      } else if j < n + 6 + |name| {
        assert sel[j] == name[j - n - 6];
      }
    }
    var last := |sel| - 1;
    assert sel[last] == ']';
    forall p, q | ScopeMatch(sel, p, q)
      ensures Below2(p, q, n, last)
    {
      NoRuleOpenAfter(sel, n, p);
    }
    assert TopScope(sel, n, last);
    assert sel[..n] == scope;
    forall p, e, q | NameMatch(sel, p, e, q)
      ensures Below3(p, e, q, n, last, last)
    {
      NoRuleOpenAfter(sel, n, p);
    }
    assert TopName(sel, n, last, last);
    assert sel[n + 6..last] + sel[last + 1..] == name;
  }

  /** `scope[--js-name]` carries no arguments when the scope holds no marker of its own. */
  lemma BareRuleMarkerArguments(scope: string, name: string)
    requires PluginName(name)
    requires !Contains(scope, RuleOpen)
    ensures StyleArguments(scope + (RuleOpen + name + "]")) == []
  {
    var tail := RuleOpen + name + "]";
    var sel := scope + tail;
    var n := |scope|;
    OpeningChars();
    forall j | n <= j < |sel|
      ensures sel[j] != '=' && sel[j] != ')'
    {
      if j < n + 6 {
        assert sel[j] == RuleOpen[j - n];
      } else if j < n + 6 + |name| {
        assert sel[j] == name[j - n - 6];
      }
    }
    forall p, a, b | ArgsMatch(sel, p, a, b)
      ensures false
    {
      AtStartsWith(sel, ArgsClose, b);
      if b < n {
        AtStartsWith(sel, RuleOpen, p);
        if p + |RuleOpen| <= n {
          AtLeft(scope, tail, RuleOpen, p);
        } else {
          AtChars(sel, RuleOpen, p, n - p);
        }
      }
    }
  }

  /** Where the parts of `scope[--js-name="(args)"]` sit. */
  lemma ArgumentLayout(scope: string, name: string, args: string)
    ensures var sel := scope + (RuleOpen + name + ArgsOpen + args + ArgsClose);
      var n := |scope|;
      var a0 := n + 6 + |name|;
      var b0 := a0 + 3 + |args|;
      && |sel| == b0 + 3
      && sel[..n] == scope && sel[n..n + 6] == RuleOpen && sel[n + 6..a0] == name
      && sel[a0..a0 + 3] == ArgsOpen && sel[a0 + 3..b0] == args && sel[b0..] == ArgsClose
  {
  }

  /** The only rule marker and the last argument opening of `scope[--js-name="(args)"]`, from its layout. */
  lemma ArgumentFacts(sel: string, n: nat, a0: nat, b0: nat, name: string, args: string)
    requires PluginName(name)
    requires !Contains(args, RuleOpen) && !Contains(args, ArgsOpen)
    requires a0 == n + 6 + |name| && b0 == a0 + 3 + |args| && |sel| == b0 + 3
    requires sel[n..n + 6] == RuleOpen && sel[n + 6..a0] == name
    requires sel[a0..a0 + 3] == ArgsOpen && sel[a0 + 3..b0] == args && sel[b0..] == ArgsClose
    ensures At(sel, RuleOpen, n) && At(sel, Marker, n + 1)
    ensures At(sel, ArgsOpen, a0) && At(sel, ArgsClose, b0)
    ensures sel[a0] == '=' && sel[|sel| - 1] == ']' && Free(sel, '=', n + 6, a0)
    ensures forall p | At(sel, RuleOpen, p) :: p <= n
    ensures forall a | At(sel, ArgsOpen, a) && a + 3 <= b0 :: a <= a0
  {
    OpeningChars();
    assert sel[n + 1..n + 6] == sel[n..n + 6][1..];
    assert Free(name, '[', 0, |name|) && Free(name, '=', 0, |name|);
    FreeSlice(sel, '[', n + 6, a0, name);
    FreeSlice(sel, '=', n + 6, a0, name);
    assert sel[a0] == sel[a0..a0 + 3][0];
    assert sel[a0 + 1] == sel[a0..a0 + 3][1];
    assert sel[a0 + 2] == sel[a0..a0 + 3][2];
    assert sel[b0] == sel[b0..][0];
    assert sel[b0 + 2] == sel[b0..][2];
    forall p | At(sel, RuleOpen, p)
      ensures p <= n
    {
      AtStartsWith(sel, RuleOpen, p);
      if a0 + 3 <= p {
        if p + 6 <= b0 {
          AtSlice(sel, RuleOpen, a0 + 3, b0, args, p);
          assert Contains(args, RuleOpen);
        } else {
          AtChars(sel, RuleOpen, p, b0 - p);
        }
      }
    }
    forall a | At(sel, ArgsOpen, a) && a + 3 <= b0
      ensures a <= a0
    {
      AtStartsWith(sel, ArgsOpen, a);
      if a > a0 {
        if a >= a0 + 3 {
          AtSlice(sel, ArgsOpen, a0 + 3, b0, args, a);
          assert Contains(args, ArgsOpen);
        }
      }
    }
  }

  /** `scope[--js-name="(args)"]`: the scope, the name and the raw argument text. */
  lemma RuleMarkerWithArguments(scope: string, name: string, args: string)
    requires PluginName(name)
    requires !Contains(args, RuleOpen) && !Contains(args, ArgsOpen)
    ensures var sel := scope + (RuleOpen + name + ArgsOpen + args + ArgsClose);
      && Contains(sel, Marker)
      && StylePluginName(sel) == name
      && ScopeSelector(sel) == (if scope == [] then "*" else scope)
      && StyleArguments(sel) == args + ", "
  {
    ArgumentLayout(scope, name, args);
    var sel := scope + (RuleOpen + name + ArgsOpen + args + ArgsClose);
    assert ArgumentLaidOut(sel, |scope|, scope, name, args);
    ArgumentShapeName(sel, |scope|, scope, name, args);
    ArgumentShapeArguments(sel, |scope|, scope, name, args);
  }

  /** The layout of `scope[--js-name="(args)"]`, stated on the selector alone. */
  predicate ArgumentLaidOut(sel: string, n: nat, scope: string, name: string, args: string)
  {
    var a0 := n + 6 + |name|; var b0 := a0 + 3 + |args|;
    && |sel| == b0 + 3 && n == |scope|
    && sel[..n] == scope && sel[n..n + 6] == RuleOpen && sel[n + 6..a0] == name
    && sel[a0..a0 + 3] == ArgsOpen && sel[a0 + 3..b0] == args && sel[b0..] == ArgsClose
  }

  /** Where the scanners land in a selector laid out as `scope[--js-name="(args)"]`. */
  lemma ArgumentPositions(sel: string, n: nat, scope: string, name: string, args: string)
    requires PluginName(name)
    requires !Contains(args, RuleOpen) && !Contains(args, ArgsOpen)
    requires ArgumentLaidOut(sel, n, scope, name, args)
    ensures At(sel, Marker, n + 1)
    ensures ScopeMarker(sel) == Some((n, |sel| - 1))
    ensures NameMarker(sel) == Some((n, n + 6 + |name|, |sel| - 1))
    ensures ArgsMarker(sel) == Some((n, n + 6 + |name|, n + 9 + |name| + |args|))
  {
    var a0 := n + 6 + |name|;
    var b0 := a0 + 3 + |args|;
    ArgumentFacts(sel, n, a0, b0, name, args);
    ArgumentScanners(sel, n, a0, b0);
  }

  /** The scope and the plugin name of a selector laid out as `scope[--js-name="(args)"]`. */
  lemma ArgumentShapeName(sel: string, n: nat, scope: string, name: string, args: string)
    requires PluginName(name)
    requires !Contains(args, RuleOpen) && !Contains(args, ArgsOpen)
    requires ArgumentLaidOut(sel, n, scope, name, args)
    ensures StylePluginName(sel) == name
    ensures ScopeSelector(sel) == (if scope == [] then "*" else scope)
  {
    ArgumentPositions(sel, n, scope, name, args);
    assert sel[|sel|..] == [];
  }

  /** The marker and the argument text of a selector laid out as `scope[--js-name="(args)"]`. */
  lemma ArgumentShapeArguments(sel: string, n: nat, scope: string, name: string, args: string)
    requires PluginName(name)
    requires !Contains(args, RuleOpen) && !Contains(args, ArgsOpen)
    requires ArgumentLaidOut(sel, n, scope, name, args)
    ensures Contains(sel, Marker)
    ensures StyleArguments(sel) == args + ", "
  {
    ArgumentPositions(sel, n, scope, name, args);
    var a0 := n + 6 + |name|;
    ArgumentText(sel, n, a0, a0 + 3 + |args|, args);
  }

  /** The argument text the scanner cuts out once it has found the marker. */
  lemma ArgumentText(sel: string, n: nat, a0: nat, b0: nat, args: string)
    requires ArgsMarker(sel) == Some((n, a0, b0))
    requires a0 + 3 <= b0 <= |sel| && sel[a0 + 3..b0] == args
    ensures StyleArguments(sel) == args + ", "
  {
  }

  /** What the three rule-marker scanners find in a selector laid out as `scope[--js-name="(args)"]`. */
  lemma ArgumentScanners(sel: string, n: nat, a0: nat, b0: nat)
    requires n + 6 < a0 && a0 + 3 <= b0 && |sel| == b0 + 3
    requires At(sel, RuleOpen, n) && At(sel, ArgsOpen, a0) && At(sel, ArgsClose, b0)
    requires sel[a0] == '=' && sel[|sel| - 1] == ']' && Free(sel, '=', n + 6, a0)
    requires forall p | At(sel, RuleOpen, p) :: p <= n
    requires forall a | At(sel, ArgsOpen, a) && a + 3 <= b0 :: a <= a0
    ensures ScopeMarker(sel) == Some((n, |sel| - 1))
    ensures NameMarker(sel) == Some((n, a0, |sel| - 1))
    ensures ArgsMarker(sel) == Some((n, a0, b0))
  {
    var last := |sel| - 1;
    assert ScopeMatch(sel, n, last);
    assert NameMatch(sel, n, a0, last);
    assert ArgsMatch(sel, n, a0, b0);
    match ArgsMarker(sel)
    case Some((p, a, b)) =>
      assert b <= b0;
  }

  /** Where the parts of `(--js-name(args))` sit. */
  lemma GroupLayout(name: string, args: string)
    ensures var c := GroupOpen + name + "(" + args + GroupClose;
      var e0 := 6 + |name|;
      var q0 := e0 + 1 + |args|;
      && |c| == q0 + 2
      && c[..6] == GroupOpen && c[6..e0] == name && c[e0] == '(' && c[e0 + 1..q0] == args && c[q0..] == GroupClose
  {
  }

  /** The only `(` of `(--js-name(args))` after its first character is the one opening the arguments. */
  lemma GroupFacts(c: string, name: string, args: string)
    requires PluginName(name)
    requires Free(args, '(', 0, |args|)
    requires var e0 := 6 + |name|; var q0 := e0 + 1 + |args|;
      && |c| == q0 + 2
      && c[..6] == GroupOpen && c[6..e0] == name && c[e0] == '(' && c[e0 + 1..q0] == args && c[q0..] == GroupClose
    ensures At(c, GroupOpen, 0) && At(c, Marker, 1) && At(c, GroupClose, |c| - 2)
    ensures Free(c, ')', 6, 6 + |name|)
    ensures Free(c, '(', 1, 6 + |name|) && Free(c, '(', 7 + |name|, |c|)
  {
    var e0 := 6 + |name|;
    var q0 := e0 + 1 + |args|;
    OpeningChars();
    assert c[1..6] == c[..6][1..];
    assert Free(name, '(', 0, |name|) && Free(name, ')', 0, |name|);
    FreeSlice(c, '(', 1, 6, c[1..6]);
    FreeSlice(c, '(', 6, e0, name);
    FreeSlice(c, ')', 6, e0, name);
    FreeSlice(c, '(', e0 + 1, q0, args);
    assert c[q0] == c[q0..][0] && c[q0 + 1] == c[q0..][1];
  }

  /** `(--js-name(args))` with non-empty arguments free of `(`: the name and the raw argument text. */
  lemma GroupMarker(name: string, args: string)
    requires PluginName(name)
    requires |args| > 0 && Free(args, '(', 0, |args|)
    ensures var c := GroupOpen + name + "(" + args + GroupClose;
      && Contains(c, Marker)
      && GroupPluginName(c) == name
      && GroupArguments(c) == args + ", "
  {
    var c := GroupOpen + name + "(" + args + GroupClose;
    var e0 := 6 + |name|;
    var q0 := e0 + 1 + |args|;
    GroupLayout(name, args);
    GroupFacts(c, name, args);
    forall s, e, q | GroupNameMatch(c, s, e, q)
      ensures Outranked(s, e, q, 0, e0, q0)
    {
    }
    assert TopGroupName(c, 0, e0, q0);
    assert c[..0] + c[6..e0] + c[q0 + 2..] == name;
    forall e, b | GroupArgsMatch(c, e, b)
      ensures Below2(e, b, e0, q0)
    {
    }
    assert TopGroupArgs(c, e0, q0);
    assert c[e0 + 1..q0] + c[q0 + 2..] == args;
  }

  /** `(--js-name())`: the name scanner finds no match, so the condition text itself is taken as the name. */
  lemma GroupMarkerWithoutArguments(name: string)
    requires PluginName(name)
    ensures var c := GroupOpen + name + "()" + ")";
      && Contains(c, Marker)
      && GroupPluginName(c) == c
      && c != name
  {
    var c := GroupOpen + name + "()" + ")";
    var e0 := 6 + |name|;
    GroupLayout(name, []);
    assert c == GroupOpen + name + "(" + [] + GroupClose;
    GroupFacts(c, name, []);
    forall s, e, q | GroupNameMatch(c, s, e, q)
      ensures false
    {
      AtStartsWith(c, GroupOpen, s);
    }
  }

  /**
   * `(--js-name(a(b)))`: `[^)]+` runs on past the `(` that opens the
   * arguments, so the plugin name taken is `name(a)` cut before its `)`,
   * not `name`.
   */
  lemma GroupMarkerWithNestedArguments(name: string, a: string, b: string)
    requires PluginName(name)
    requires Free(a, '(', 0, |a|) && Free(a, ')', 0, |a|)
    requires Free(b, '(', 0, |b|) && Free(b, ')', 0, |b|)
    ensures var c := GroupOpen + name + "(" + a + "(" + b + ")" + GroupClose;
      && Contains(c, Marker)
      && GroupPluginName(c) == name + "(" + a
      && GroupPluginName(c) != name
  {
    var c := GroupOpen + name + "(" + a + "(" + b + ")" + GroupClose;
    var e2 := 7 + |name| + |a|;
    var q0 := |c| - 2;
    NestedLayout(c, name, a, b);
    forall s, e, q | GroupNameMatch(c, s, e, q)
      ensures Outranked(s, e, q, 0, e2, q0)
    {
    }
    assert TopGroupName(c, 0, e2, q0);
    assert c[..0] + c[6..e2] + c[q0 + 2..] == name + "(" + a;
    assert |name + "(" + a| > |name|;
  }

  /** The markers of `(--js-name(a(b)))`, and that no `(` follows the second one. */
  lemma NestedLayout(c: string, name: string, a: string, b: string)
    requires PluginName(name)
    requires Free(a, '(', 0, |a|) && Free(a, ')', 0, |a|)
    requires Free(b, '(', 0, |b|) && Free(b, ')', 0, |b|)
    requires c == GroupOpen + name + "(" + a + "(" + b + ")" + GroupClose
    ensures var e2 := 7 + |name| + |a|;
      && |c| == e2 + |b| + 4
      && At(c, GroupOpen, 0) && At(c, Marker, 1) && At(c, GroupClose, |c| - 2)
      && c[e2] == '(' && Free(c, ')', 6, e2) && Free(c, '(', e2 + 1, |c|)
      && c[6..e2] == name + "(" + a
  {
    var e1 := 6 + |name|;
    var e2 := 7 + |name| + |a|;
    var q := e2 + 1 + |b|;
    NestedPieces(c, name, a, b);
    assert c[1..6] == c[..6][1..];
    assert Free(name, ')', 0, |name|);
    FreeSlice(c, ')', 6, e1, name);
    FreeSlice(c, ')', e1 + 1, e2, a);
    FreeSlice(c, '(', e2 + 1, q, b);
    assert c[q] == c[q..][0] && c[q + 1] == c[q..][1] && c[q + 2] == c[q..][2];
    assert c[6..e2] == c[6..e1] + [c[e1]] + c[e1 + 1..e2];
  }

  /** Where the parts of `(--js-name(a(b)))` sit. */
  lemma NestedPieces(c: string, name: string, a: string, b: string)
    requires c == GroupOpen + name + "(" + a + "(" + b + ")" + GroupClose
    ensures var e1 := 6 + |name|; var e2 := e1 + 1 + |a|; var q := e2 + 1 + |b|;
      && |c| == q + 3
      && c[..6] == GroupOpen && c[6..e1] == name && c[e1] == '(' && c[e1 + 1..e2] == a
      && c[e2] == '(' && c[e2 + 1..q] == b && c[q..] == ")))"
  {
  }

  // ---------------------------------------------------------------------
  // Override values

  /**
   * What may come before a declaration of `key`: a text that is empty or
   * ends a declaration or a block (`;`, `{` or `}`), then white space, as
   * the browser serialises declarations and nested rules. `key` starts with
   * something other than white space and holds none of `; { }`.
   */
  predicate Break(a: string, w: string, key: string)
  {
    && (a == [] || a[|a| - 1] in ";{}")
    && AllSpace(w)
    && |key| > 0 && !IsJsSpace(key[0])
    && forall k | 0 <= k < |key| :: key[k] !in ";{}"
  }

  /** Every occurrence of `key` in `a` has its value ended by a `;` within `a`. */
  ghost predicate Terminated(a: string, key: string)
  {
    forall s | At(a, key, s) :: exists j | s + |key| <= j < |a| :: a[j] == ';'
  }

  /**
   * `exec` returns the value of the first declaration of `key`: the text
   * before it holds no `key` and is separated from it as `Break` says;
   * anything may follow.
   */
  lemma FirstDeclarationWins(a: string, w: string, key: string, v: string, rest: string)
    requires Break(a, w, key) && !Contains(a, key)
    requires |v| > 0 && Free(v, ';', 0, |v|)
    ensures FirstValue(a + w + key + v + ";" + rest, key) == Some(v)
  {
    var t := a + w + key + v + ";" + rest;
    var n := |a| + |w|;
    var e0 := n + |key| + |v|;
    DeclarationFacts(a + w, key, v, rest);
    forall s, e | 0 <= s < n
      ensures !ValueMatch(t, key, s, e)
    {
      KeyInside(t, a, w, key, s);
    }
    assert FirstMatch(t, key, n, e0);
  }

  /**
   * The global replace leaves the value of the last declaration of `key`:
   * every `key` before it has its value ended before it, it is separated
   * from what precedes it as `Break` says, and no `key` follows it.
   */
  lemma LastDeclarationWins(a: string, w: string, key: string, v: string, rest: string)
    requires Break(a, w, key) && Terminated(a, key) && !Contains(rest, key)
    requires |v| > 0 && Free(v, ';', 0, |v|)
    ensures LastValue(a + w + key + v + ";" + rest, key) == v
  {
    var p := a + w + key + v + ";";
    var t := p + rest;
    var n := |a + w|;
    var e0 := n + |key| + |v|;
    DeclarationFacts(a + w, key, v, rest);
    EarlierEnded(t, a, w, key);
    NoneAfter(p, rest, key);
    assert LastScanned(t, key, n, e0);
    assert t[n + |key|..e0] == v;
  }

  /** Every match that starts before the declaration is over before it. */
  lemma EarlierEnded(t: string, a: string, w: string, key: string)
    requires Break(a, w, key) && Terminated(a, key)
    requires |a| + |w| <= |t| && t[..|a| + |w|] == a + w
    ensures forall s, e :: 0 <= s < |a + w| && ValueMatch(t, key, s, e) ==> e < |a + w|
  {
    forall s, e | 0 <= s < |a + w| && ValueMatch(t, key, s, e)
      ensures e < |a + w|
    {
      EndsInside(t, a, w, key, s, e);
    }
  }

  /** No match starts in a text free of `key` that follows `p`. */
  lemma NoneAfter(p: string, rest: string, key: string)
    requires !Contains(rest, key)
    ensures forall s, e :: |p| - 1 < s ==> !ValueMatch(p + rest, key, s, e)
  {
    forall s, e | |p| - 1 < s
      ensures !ValueMatch(p + rest, key, s, e)
    {
      AtRight(p, rest, key, s - |p|);
    }
  }

  /** A match that starts before the declaration ends inside `a`, at a `;` that `Terminated` provides. */
  lemma EndsInside(t: string, a: string, w: string, key: string, s: nat, e: int)
    requires Break(a, w, key) && Terminated(a, key)
    requires |a| + |w| <= |t| && t[..|a| + |w|] == a + w && s < |a| + |w|
    requires ValueMatch(t, key, s, e)
    ensures e < |a|
  {
    KeyInside(t, a, w, key, s);
    var j :| s + |key| <= j < |a| && a[j] == ';';
    assert t[j] == (a + w)[j] == ';';
  }

  /** Where the declaration of `a + key + v + ";" + rest` sits. */
  lemma DeclarationFacts(a: string, key: string, v: string, rest: string)
    requires |v| > 0 && Free(v, ';', 0, |v|)
    ensures var t := a + key + v + ";" + rest;
      ValueMatch(t, key, |a|, |a| + |key| + |v|) && t[|a| + |key|..|a| + |key| + |v|] == v
      && |a| + |key| + |v| + 1 == |a + key + v + ";"|
      && t[..|a|] == a && (|a| > 0 ==> t[|a| - 1] == a[|a| - 1])
  {
    var t := a + key + v + ";" + rest;
    var n := |a|;
    var e0 := n + |key| + |v|;
    assert t[n..n + |key|] == key;
    assert t[e0] == ';';
    assert t[n + |key|..e0] == v;
    FreeSlice(t, ';', n + |key|, e0, v);
  }

  /**
   * An occurrence of `key` that starts before the declaration lies wholly
   * inside `a`: it cannot start in the white space, nor run across the
   * `;`, `{` or `}` that ends `a`.
   */
  lemma KeyInside(t: string, a: string, w: string, key: string, s: nat)
    requires Break(a, w, key)
    requires |a| + |w| <= |t| && t[..|a| + |w|] == a + w && s < |a| + |w|
    ensures At(t, key, s) ==> s + |key| <= |a| && At(a, key, s)
  {
    if s >= |a| {
      assert t[s] == (a + w)[s] == w[s - |a|];
      NotAt(t, key, s, 0);
    } else if s + |key| > |a| {
      assert t[|a| - 1] == (a + w)[|a| - 1] == a[|a| - 1];
      NotAt(t, key, s, |a| - 1 - s);
    } else {
      assert At(t, key, s) ==> At(a, key, s) by {
        assert a[s..s + |key|] == (a + w)[s..s + |key|] == t[s..s + |key|];
      }
    }
  }

  /** A text ending with a `;` and then a stretch free of `key` keeps every value of `key` in it terminated. */
  lemma TerminatedBefore(a: string, j0: nat, key: string)
    requires j0 < |a| && a[j0] == ';' && !Contains(a[j0 + 1..], key)
    requires forall k | 0 <= k < |key| :: key[k] != ';'
    ensures Terminated(a, key)
  {
    forall s | At(a, key, s) && s + |key| <= j0
      ensures exists j | s + |key| <= j < |a| :: a[j] == ';'
    {
      assert a[j0] == ';';
    }
    forall s | 0 <= s <= j0 < s + |key|
      ensures !At(a, key, s)
    {
      NotAt(a, key, s, j0 - s);
    }
    forall s | j0 < s
      ensures !At(a, key, s)
    {
      assert a == a[..j0 + 1] + a[j0 + 1..];
      AtRight(a[..j0 + 1], a[j0 + 1..], key, s - (j0 + 1));
    }
  }

  /**
   * Two declarations of one key, with anything free of the key around and
   * between them: `exec` takes the first value, the global replace the last.
   */
  lemma FirstAndLastDeclaration(a: string, w1: string, key: string, v1: string, b: string, w2: string, v2: string, rest: string)
    requires Break(a, w1, key) && Break(b, w2, key)
    requires !Contains(a, key) && !Contains(b, key) && !Contains(rest, key)
    requires |v1| > 0 && Free(v1, ';', 0, |v1|)
    requires |v2| > 0 && Free(v2, ';', 0, |v2|)
    ensures var t := a + w1 + key + v1 + ";" + b + w2 + key + v2 + ";" + rest;
      FirstValue(t, key) == Some(v1) && LastValue(t, key) == v2
  {
    var d := a + w1 + key + v1 + ";";
    var c := d + b;
    var tail := b + w2 + key + v2 + ";" + rest;
    var t := c + w2 + key + v2 + ";" + rest;
    assert t == d + tail;
    FirstDeclarationWins(a, w1, key, v1, tail);
    assert c[..|d|] == d && c[|d|..] == b;
    assert c[|d| - 1] == ';';
    TerminatedBefore(c, |d| - 1, key);
    LastDeclarationWins(c, w2, key, v2, rest);
  }
}
