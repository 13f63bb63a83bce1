/**
 * The regular expressions that recognise and take apart a plugin marker,
 * each written as an explicit scanner.
 *
 * For every expression there is a predicate saying when it matches with its
 * groups at given positions (`ScopeMatch`, `NameMatch`, ...), and a scanner
 * proved to return the match a backtracking engine commits to: the leftmost
 * start first, then the longest run for each greedy quantifier from left to
 * right, that is, the lexicographically greatest tuple of positions.
 * `.` is read as "any character".
 */
module Markers {
  import opened Text

  /** The token whose presence makes a rule a plugin invocation (`/--js-/`). */
  const Marker: string := "--js-"
  /** Opens a rule marker: `[--js-name]` or `[--js-name="(args)"]`. */
  const RuleOpen: string := "[--js-"
  const ArgsOpen: string := "=\"("
  const ArgsClose: string := ")\"]"
  /** Opens a group marker: `(--js-name(args))`. */
  const GroupOpen: string := "(--js-"
  const GroupClose: string := "))"

  /** A plugin name of the well-formed marker shapes: non-empty, none of `= [ ] ( )`. */
  predicate PluginName(name: string)
  {
    |name| > 0 && forall k | 0 <= k < |name| :: name[k] !in "=[]()"
  }

  /** `(p, q)` ranks no higher than `(p0, q0)` for two greedy quantifiers. */
  predicate Below2(p: int, q: int, p0: int, q0: int)
  {
    p < p0 || (p == p0 && q <= q0)
  }

  /** `(p, e, q)` ranks no higher than `(p0, e0, q0)` for three greedy quantifiers. */
  predicate Below3(p: int, e: int, q: int, p0: int, e0: int, q0: int)
  {
    p < p0 || (p == p0 && Below2(e, q, e0, q0))
  }

  // ---------------------------------------------------------------------
  // The scope selector: `(.*)\[--js-.+\]`, group 1, or `*` (index.js:48-51)

  /** `(.*)\[--js-.+\]` matches with `[--js-` at `p` and its closing `]` at `q`. */
  predicate ScopeMatch(sel: string, p: int, q: int)
  {
    At(sel, RuleOpen, p) && p + 7 <= q < |sel| && sel[q] == ']'
  }

  function ScopeMarker(sel: string): (r: Option<(nat, nat)>)
    ensures r.Some? ==> ScopeMatch(sel, r.value.0, r.value.1)
    ensures r.Some? ==> forall p, q :: ScopeMatch(sel, p, q) ==> Below2(p, q, r.value.0, r.value.1)
    ensures r.None? ==> forall p, q :: !ScopeMatch(sel, p, q)
  {
    match LastChar(sel, ']', 0, |sel| - 1)
    case None => None
    case Some(q) =>
      match FindLast(sel, RuleOpen, 0, q - 7)
      case None => None
      case Some(p) => Some((p, q))
  }

  /** `(p, q)` is the match of `(.*)\[--js-.+\]` that a backtracking engine commits to. */
  ghost predicate TopScope(sel: string, p: int, q: int)
  {
    ScopeMatch(sel, p, q) && forall p', q' :: ScopeMatch(sel, p', q') ==> Below2(p', q', p, q)
  }

  /** The selector a rule plugin is scoped to: what precedes the marker, or `*` when that is empty or there is no match. */
  function ScopeSelector(sel: string): (r: string)
    ensures r == "*" || (0 < |r| < |sel| && r == sel[..|r|] && At(sel, RuleOpen, |r|))
    ensures forall p, q :: TopScope(sel, p, q) ==> r == (if p > 0 then sel[..p] else "*")
    ensures (forall p, q :: !ScopeMatch(sel, p, q)) ==> r == "*"
  {
    match ScopeMarker(sel)
    case None => "*"
    case Some((p, _)) => if p > 0 then sel[..p] else "*"
  }

  // ---------------------------------------------------------------------
  // The rule plugin name: `sel.replace(/.*\[--js-([^=]+).*\]/, '$1')` (index.js:54)

  /** `.*\[--js-([^=]+).*\]` matches with `[--js-` at `p`, group 1 = `sel[p+6..e]` and the closing `]` at `q`. */
  predicate NameMatch(sel: string, p: int, e: int, q: int)
  {
    At(sel, RuleOpen, p) && p + 6 < e <= q < |sel| && Free(sel, '=', p + 6, e) && sel[q] == ']'
  }

  /** `[--js-` at `p` followed by a character other than `=`. */
  predicate NameStart(sel: string, p: int)
  {
    At(sel, RuleOpen, p) && p + 6 < |sel| && sel[p + 6] != '='
  }

  function LastNameStart(sel: string, hi: int): (r: Option<nat>)
    ensures r.Some? ==> r.value <= hi && NameStart(sel, r.value)
    ensures r.Some? ==> forall j :: r.value < j <= hi ==> !NameStart(sel, j)
    ensures r.None? ==> forall j :: j <= hi ==> !NameStart(sel, j)
    decreases hi
  {
    if hi < 0 then None
    else if NameStart(sel, hi) then Some(hi)
    else LastNameStart(sel, hi - 1)
  }

  function NameMarker(sel: string): (r: Option<(nat, nat, nat)>)
    ensures r.Some? ==> NameMatch(sel, r.value.0, r.value.1, r.value.2)
    ensures r.Some? ==> forall p, e, q :: NameMatch(sel, p, e, q) ==> Below3(p, e, q, r.value.0, r.value.1, r.value.2)
    ensures r.None? ==> forall p, e, q :: !NameMatch(sel, p, e, q)
  {
    match LastChar(sel, ']', 0, |sel| - 1)
    case None => None
    case Some(q) =>
      match LastNameStart(sel, q - 7)
      case None =>
        assert forall p, e, q' :: NameMatch(sel, p, e, q') ==> NameStart(sel, p) && p <= q - 7;
        None
      case Some(p) =>
        var e := match FirstChar(sel, '=', p + 6)
          case Some(k) => if k < q then k else q
          case None => q;
        assert forall p', e', q' :: NameMatch(sel, p', e', q') ==> NameStart(sel, p') && p' <= q - 7;
        Some((p, e, q))
  }

  /** `(p, e, q)` is the match of `.*\[--js-([^=]+).*\]` that a backtracking engine commits to. */
  ghost predicate TopName(sel: string, p: int, e: int, q: int)
  {
    NameMatch(sel, p, e, q) && forall p', e', q' :: NameMatch(sel, p', e', q') ==> Below3(p', e', q', p, e, q)
  }

  /**
   * The plugin named by a rule marker: the match runs from the start of the
   * selector, since `.*` can begin there, so `replace` leaves group 1 followed
   * by what trails the match; with no match, the selector itself.
   */
  function StylePluginName(sel: string): (r: string)
    ensures forall p, e, q :: TopName(sel, p, e, q) ==> r == sel[p + 6..e] + sel[q + 1..]
    ensures (forall p, e, q :: !NameMatch(sel, p, e, q)) ==> r == sel
  {
    match NameMarker(sel)
    case None => sel
    case Some((p, e, q)) => sel[p + 6..e] + sel[q + 1..]
  }

  // ---------------------------------------------------------------------
  // The rule plugin arguments: `.*\[--js-.+="\((.*)\)"\]`, group 1 + ", ", or "" (index.js:59-61)

  /** `.*\[--js-.+="\((.*)\)"\]` matches with `[--js-` at `p`, `="(` at `a` and `)"]` at `b`. */
  predicate ArgsMatch(sel: string, p: int, a: int, b: int)
  {
    At(sel, RuleOpen, p) && p + 7 <= a && At(sel, ArgsOpen, a) && a + 3 <= b && At(sel, ArgsClose, b)
  }

  function ArgsMarker(sel: string): (r: Option<(nat, nat, nat)>)
    ensures r.Some? ==> ArgsMatch(sel, r.value.0, r.value.1, r.value.2)
    ensures r.Some? ==> forall p, a, b :: ArgsMatch(sel, p, a, b) ==> Below3(p, a, b, r.value.0, r.value.1, r.value.2)
    ensures r.None? ==> forall p, a, b :: !ArgsMatch(sel, p, a, b)
  {
    match FindLast(sel, ArgsClose, 0, |sel|)
    case None => None
    case Some(b) =>
      match FindLast(sel, ArgsOpen, 0, b - 3)
      case None => None
      case Some(a) =>
        match FindLast(sel, RuleOpen, 0, a - 7)
        case None => None
        case Some(p) => Some((p, a, b))
  }

  /** `(p, a, b)` is the match of `.*\[--js-.+="\((.*)\)"\]` that a backtracking engine commits to. */
  ghost predicate TopArgs(sel: string, p: int, a: int, b: int)
  {
    ArgsMatch(sel, p, a, b) && forall p', a', b' :: ArgsMatch(sel, p', a', b') ==> Below3(p', a', b', p, a, b)
  }

  /** The raw argument text of a rule marker followed by `", "`, or empty when the marker has no `="(...)"` value. */
  function StyleArguments(sel: string): (r: string)
    ensures r == [] <==> forall p, a, b :: !ArgsMatch(sel, p, a, b)
    ensures forall p, a, b :: TopArgs(sel, p, a, b) ==> r == sel[a + 3..b] + ", "
  {
    match ArgsMarker(sel)
    case None => []
    case Some((_, a, b)) => sel[a + 3..b] + ", "
  }

  // ---------------------------------------------------------------------
  // The group plugin name: `cond.replace(/\(--js-([^)]+)\(.+\)\)/, '$1')` (index.js:118-121)

  /** `\(--js-([^)]+)\(.+\)\)` matches from `s`, with group 1 = `c[s+6..e]`, the `(` at `e` and `))` at `q`. */
  predicate GroupNameMatch(c: string, s: int, e: int, q: int)
  {
    At(c, GroupOpen, s) && s + 6 < e < |c| && Free(c, ')', s + 6, e) && c[e] == '('
    && e + 2 <= q && At(c, GroupClose, q)
  }

  /** The preferred `(e, q)` for a match starting at `s`. */
  function GroupNameAt(c: string, s: nat): (r: Option<(nat, nat)>)
    ensures r.Some? ==> GroupNameMatch(c, s, r.value.0, r.value.1)
    ensures r.Some? ==> forall e, q :: GroupNameMatch(c, s, e, q) ==> Below2(e, q, r.value.0, r.value.1)
    ensures r.None? ==> forall e, q :: !GroupNameMatch(c, s, e, q)
  {
    if !At(c, GroupOpen, s) then None
    else
      var close := match FirstChar(c, ')', s + 6) case Some(k) => k case None => |c|;
      assert forall e, q :: GroupNameMatch(c, s, e, q) ==> e < close;
      match FindLast(c, GroupClose, 0, |c|)
      case None => None
      case Some(q) =>
        var hi := if close - 1 < q - 2 then close - 1 else q - 2;
        match LastChar(c, '(', s + 7, hi)
        case None => None
        case Some(e) => Some((e, q))
  }

  /** `(s, e, q)` ranks no higher than `(s0, e0, q0)` when the start is leftmost and the two quantifiers greedy. */
  predicate Outranked(s: int, e: int, q: int, s0: int, e0: int, q0: int)
  {
    s0 < s || (s == s0 && Below2(e, q, e0, q0))
  }

  /** The match a search from `from` commits to. */
  function GroupNameFrom(c: string, from: nat): (r: Option<(nat, nat, nat)>)
    ensures r.Some? ==> from <= r.value.0 && GroupNameMatch(c, r.value.0, r.value.1, r.value.2)
    ensures r.Some? ==> forall s, e, q :: from <= s && GroupNameMatch(c, s, e, q) ==> Outranked(s, e, q, r.value.0, r.value.1, r.value.2)
    ensures r.None? ==> forall s, e, q :: from <= s ==> !GroupNameMatch(c, s, e, q)
    decreases |c| - from
  {
    match FindFirst(c, GroupOpen, from)
    case None =>
      assert forall s, e, q :: GroupNameMatch(c, s, e, q) ==> At(c, GroupOpen, s);
      None
    case Some(s) =>
      assert forall s', e, q :: from <= s' < s && GroupNameMatch(c, s', e, q) ==> At(c, GroupOpen, s');
      match GroupNameAt(c, s)
      case Some((e, q)) => Some((s, e, q))
      case None =>
        var r := GroupNameFrom(c, s + 1);
        SkipStart(c, from, s, r);
        r
  }

  /** A start with no match, after a stretch without `(--js-`, passes the search on to the next position. */
  lemma SkipStart(c: string, from: nat, s: nat, r: Option<(nat, nat, nat)>)
    requires from <= s && forall j :: from <= j < s ==> !At(c, GroupOpen, j)
    requires forall e, q :: !GroupNameMatch(c, s, e, q)
    requires r.Some? ==> s + 1 <= r.value.0 && GroupNameMatch(c, r.value.0, r.value.1, r.value.2)
    requires r.Some? ==> forall s', e, q :: s + 1 <= s' && GroupNameMatch(c, s', e, q) ==> Outranked(s', e, q, r.value.0, r.value.1, r.value.2)
    requires r.None? ==> forall s', e, q :: s + 1 <= s' ==> !GroupNameMatch(c, s', e, q)
    ensures r.Some? ==> from <= r.value.0 && GroupNameMatch(c, r.value.0, r.value.1, r.value.2)
    ensures r.Some? ==> forall s', e, q :: from <= s' && GroupNameMatch(c, s', e, q) ==> Outranked(s', e, q, r.value.0, r.value.1, r.value.2)
    ensures r.None? ==> forall s', e, q :: from <= s' ==> !GroupNameMatch(c, s', e, q)
  {
  }

  /** `(s, e, q)` is the match of `\(--js-([^)]+)\(.+\)\)` that a backtracking engine commits to. */
  ghost predicate TopGroupName(c: string, s: int, e: int, q: int)
  {
    GroupNameMatch(c, s, e, q) && forall s', e', q' :: GroupNameMatch(c, s', e', q') ==> Outranked(s', e', q', s, e, q)
  }

  /** The plugin named by a group marker: group 1 spliced into the condition in place of the match, or the condition itself. */
  function GroupPluginName(c: string): (r: string)
    ensures forall s, e, q :: TopGroupName(c, s, e, q) ==> r == c[..s] + c[s + 6..e] + c[q + 2..]
    ensures (forall s, e, q :: !GroupNameMatch(c, s, e, q)) ==> r == c
  {
    match GroupNameFrom(c, 0)
    case None => c
    case Some((s, e, q)) => c[..s] + c[s + 6..e] + c[q + 2..]
  }

  // ---------------------------------------------------------------------
  // The group plugin arguments: test `/^\(--js-.*\((.*)\)\)/`, then
  // `cond.replace(/\(--js-.*\((.*)\)\)/, '$1') + ', '`, or "" (index.js:126-128)

  /** `^\(--js-.*\((.*)\)\)` matches with the `(` at `e` and `))` at `b`. */
  predicate GroupArgsMatch(c: string, e: int, b: int)
  {
    At(c, GroupOpen, 0) && 6 <= e < |c| && c[e] == '(' && e + 1 <= b && At(c, GroupClose, b)
  }

  function GroupArgsMarker(c: string): (r: Option<(nat, nat)>)
    ensures r.Some? ==> GroupArgsMatch(c, r.value.0, r.value.1)
    ensures r.Some? ==> forall e, b :: GroupArgsMatch(c, e, b) ==> Below2(e, b, r.value.0, r.value.1)
    ensures r.None? ==> forall e, b :: !GroupArgsMatch(c, e, b)
  {
    if !At(c, GroupOpen, 0) then None
    else
      match FindLast(c, GroupClose, 0, |c|)
      case None => None
      case Some(b) =>
        match LastChar(c, '(', 6, b - 1)
        case None => None
        case Some(e) => Some((e, b))
  }

  /** `(e, b)` is the match of `^\(--js-.*\((.*)\)\)` that a backtracking engine commits to. */
  ghost predicate TopGroupArgs(c: string, e: int, b: int)
  {
    GroupArgsMatch(c, e, b) && forall e', b' :: GroupArgsMatch(c, e', b') ==> Below2(e', b', e, b)
  }

  /**
   * The raw argument text of a group marker followed by `", "`, or empty when the
   * anchored test fails. The unanchored replace matches at 0 as well, so its
   * result is group 1 followed by whatever trails the match.
   */
  function GroupArguments(c: string): (r: string)
    ensures r == [] <==> forall e, b :: !GroupArgsMatch(c, e, b)
    ensures forall e, b :: TopGroupArgs(c, e, b) ==> r == c[e + 1..b] + c[b + 2..] + ", "
  {
    match GroupArgsMarker(c)
    case None => []
    case Some((e, b)) => c[e + 1..b] + c[b + 2..] + ", "
  }

  // ---------------------------------------------------------------------
  // Declaration bodies (index.js:64-68, 131-134)

  /** `cssText.substring(selectorText.length).trim().slice(1, -1).trim()`. */
  function Declarations(cssText: string, selectorLength: nat): string
  {
    Trim(SliceInner(Trim(Substring(cssText, selectorLength))))
  }

  const SupportsKeyword: string := "@supports "

  /** `cssText.substring("@supports ".length + conditionText.length).trim().slice(1, -1)`: not trimmed again. */
  function GroupBody(cssText: string, conditionLength: nat): string
  {
    SliceInner(Trim(Substring(cssText, |SupportsKeyword| + conditionLength)))
  }

  /** A style rule serialised as `selector { declarations }` yields its declarations, trimmed. */
  lemma BlockDeclarations(sel: string, w1: string, m: string, w2: string)
    requires AllSpace(w1) && AllSpace(w2)
    ensures Declarations(sel + w1 + "{" + m + "}" + w2, |sel|) == Trim(m)
  {
    var css := sel + w1 + "{" + m + "}" + w2;
    assert Substring(css, |sel|) == w1 + ("{" + m + "}") + w2;
    TrimPadded(w1, "{" + m + "}", w2);
    assert SliceInner("{" + m + "}") == m;
  }

  /** A group rule serialised as `@supports condition { body }` yields its body verbatim. */
  lemma BlockBody(cond: string, w1: string, m: string, w2: string)
    requires AllSpace(w1) && AllSpace(w2)
    ensures GroupBody(SupportsKeyword + cond + w1 + "{" + m + "}" + w2, |cond|) == m
  {
    var css := SupportsKeyword + cond + w1 + "{" + m + "}" + w2;
    assert Substring(css, |SupportsKeyword| + |cond|) == w1 + ("{" + m + "}") + w2;
    TrimPadded(w1, "{" + m + "}", w2);
    assert SliceInner("{" + m + "}") == m;
  }

  // ---------------------------------------------------------------------
  // Override values: `/--selector: ([^;]+);/` and `/--events: ([^;]+);/`
  // (index.js:77-81 with exec, index.js:143-151 with a global replace)

  const SelectorKey: string := "--selector: "
  const EventsKey: string := "--events: "

  /** `key([^;]+);` matches from `s`, with group 1 = `t[s+|key|..e]` and the `;` at `e`. */
  predicate ValueMatch(t: string, key: string, s: int, e: int)
  {
    At(t, key, s) && s + |key| < e < |t| && t[e] == ';' && Free(t, ';', s + |key|, e)
  }

  /** A match from `s`, if any: its end is forced, `[^;]+` stops at the first `;`. */
  function ValueEnd(t: string, key: string, s: nat): (r: Option<nat>)
    ensures r.Some? ==> ValueMatch(t, key, s, r.value)
    ensures r.Some? ==> forall e :: ValueMatch(t, key, s, e) ==> e == r.value
    ensures r.None? ==> forall e :: !ValueMatch(t, key, s, e)
  {
    if !At(t, key, s) then None
    else
      match FirstChar(t, ';', s + |key|)
      case None => None
      case Some(e) => if e > s + |key| then Some(e) else None
  }

  /** The leftmost match starting at or after `from`. */
  function NextValue(t: string, key: string, from: nat): (r: Option<(nat, nat)>)
    ensures r.Some? ==> from <= r.value.0 && ValueMatch(t, key, r.value.0, r.value.1)
    ensures r.Some? ==> forall s, e :: from <= s < r.value.0 ==> !ValueMatch(t, key, s, e)
    ensures r.None? ==> forall s, e :: from <= s ==> !ValueMatch(t, key, s, e)
    decreases |t| - from
  {
    if from >= |t| then None
    else
      match ValueEnd(t, key, from)
      case Some(e) => Some((from, e))
      case None => NextValue(t, key, from + 1)
  }

  /** `(s, e)` is the leftmost match of `key([^;]+);`, the one `exec` reports. */
  ghost predicate FirstMatch(t: string, key: string, s: int, e: int)
  {
    ValueMatch(t, key, s, e) && forall s', e' :: 0 <= s' < s ==> !ValueMatch(t, key, s', e')
  }

  /** `new RegExp(/key([^;]+);/).exec(t)[1]`: the first value; `None` where `exec` returns null. */
  function FirstValue(t: string, key: string): (r: Option<string>)
    ensures r.None? <==> forall s, e :: !ValueMatch(t, key, s, e)
    ensures r.Some? ==> exists s, e :: ValueMatch(t, key, s, e) && r.value == t[s + |key|..e]
    ensures forall s, e :: FirstMatch(t, key, s, e) ==> r == Some(t[s + |key|..e])
  {
    match NextValue(t, key, 0)
    case None => None
    case Some((s, e)) => Some(t[s + |key|..e])
  }

  /**
   * `t.replace(/key([^;]+);/g, (m, v) => current = v)` continued from `from`:
   * the global scan resumes after each match, and the callback's variable
   * ends up holding the value of the last match seen; `last` is the match
   * seen so far.
   */
  function LastMatch(t: string, key: string, from: nat, last: Option<(nat, nat)>): Option<(nat, nat)>
    decreases |t| - from
  {
    match NextValue(t, key, from)
    case None => last
    case Some((s, e)) => LastMatch(t, key, e + 1, Some((s, e)))
  }

  /** The scan ends on the match it started with or on a match at or after where it starts. */
  lemma {:induction false} LastMatchFound(t: string, key: string, from: nat, last: Option<(nat, nat)>)
    ensures var r := LastMatch(t, key, from, last);
      r == last || (r.Some? && from <= r.value.0 && ValueMatch(t, key, r.value.0, r.value.1))
    decreases |t| - from
  {
    match NextValue(t, key, from)
    case None =>
    case Some((s, e)) =>
      LastMatchFound(t, key, e + 1, Some((s, e)));
  }

  /**
   * `(n, e0)` is the match the global scan ends on: every match that starts
   * before it is over before it starts, so the scan steps onto it, and no
   * match starts after it.
   */
  ghost predicate LastScanned(t: string, key: string, n: int, e0: int)
  {
    && ValueMatch(t, key, n, e0)
    && (forall s, e :: 0 <= s < n && ValueMatch(t, key, s, e) ==> e < n)
    && (forall s, e :: e0 < s ==> !ValueMatch(t, key, s, e))
  }

  /** A scan resumed at or before the match it ends on reaches that match and stops there. */
  lemma {:induction false} ScanReachesLast(t: string, key: string, n: nat, e0: nat, from: nat, last: Option<(nat, nat)>)
    requires LastScanned(t, key, n, e0) && from <= n
    ensures LastMatch(t, key, from, last) == Some((n, e0))
    decreases n - from
  {
    var next := NextValue(t, key, from);
    assert next.Some?;
    var s, e := next.value.0, next.value.1;
    if s < n {
      ScanReachesLast(t, key, n, e0, e + 1, next);
    } else {
      assert NextValue(t, key, e0 + 1).None?;
    }
  }

  /** The value the global replace leaves in its variable, which starts out empty. */
  function LastValue(t: string, key: string): (r: string)
    ensures r == [] || exists s, e :: ValueMatch(t, key, s, e) && r == t[s + |key|..e]
    ensures forall n, e0 :: LastScanned(t, key, n, e0) ==> r == t[n + |key|..e0]
  {
    var m := LastMatch(t, key, 0, None);
    LastMatchFound(t, key, 0, None);
    ScanEndsOnLast(t, key);
    if m.None? then [] else t[m.value.0 + |key|..m.value.1]
  }

  /** The scan from the start ends on the match `LastScanned` describes. */
  lemma ScanEndsOnLast(t: string, key: string)
    ensures forall n, e0 :: LastScanned(t, key, n, e0) ==> LastMatch(t, key, 0, None) == Some((n, e0))
  {
    forall n, e0 | LastScanned(t, key, n, e0)
      ensures LastMatch(t, key, 0, None) == Some((n, e0))
    {
      ScanReachesLast(t, key, n, e0, 0, None);
    }
  }
}
