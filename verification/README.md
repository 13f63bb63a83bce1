# qaffeine rule compiler, modelled in Dafny

qaffeine turns a CSS file that uses jsincss plugin markers into a
JavaScript file. The browser parses the style sheet; qaffeine walks its
top-level rules in document order and sorts each one:

- A style rule whose selector holds `--js-` (`scope[--js-name]` or
  `scope[--js-name="(args)"]`) becomes a call of a *rule plugin*.
- A `@supports` rule whose condition holds `--js-` (`(--js-name(args))`)
  becomes a call of a *stylesheet plugin*. The name pattern stops at the
  first `)`, so arguments that open a parenthesis of their own, as in
  `(--js-x(calc(1px)))`, make the plugin name `x(calc` rather than `x`.
- Any other rule is passed through as CSS.

A marker whose plugin is not registered is dropped silently. A call goes
to the *generic* list, which runs under jsincss's default event listeners,
or to the *custom* list, which carries its own `--selector` and `--events`
overrides. Each used plugin is recorded in a used record of its kind. The
assembler then writes:

- the jsincss runtime and the used plugins' source;
- one `jsincss` call for all generic invocations;
- the custom invocations;
- the passed-through CSS, as a `<style>` element or as a separate CSS text.

The model:

- `text.dfy` (module `Text`): the JavaScript string operations used:
  `includes`, `substring`, `slice(1, -1)`, `trim`, `join`, and `split` as
  the inverse of `join`.
- `markers.dfy` (module `Markers`): each regular expression of the
  classifier as an explicit scanner, plus a predicate saying when the
  expression matches with its groups at given positions. Each scanner is
  proved to return the match a backtracking engine commits to: leftmost
  start, then greedy quantifiers from left to right. The module also holds
  the declaration and body extraction and the two ways override values are
  read. `exec` reads the first value; the global `replace` with a callback
  keeps the last.
- `shapes.dfy` (module `Shapes`): what the scanners return on the marker
  shapes the tool documents. These are built from a scope, a plugin name
  free of `= [ ] ( )` and an argument text.
- `objects.dfy` (module `Objects`): a JavaScript object used as a
  dictionary. Its keys keep the order of first assignment, which is the
  order `Object.keys` reports.
- `invocations.dfy` (module `Invocations`): the four invocation texts, and
  their line-by-line structure.
- `rules.dfy` (module `Rules`): the classifier `Classify`, the per-rule
  update `Apply` and the fold `Run`. `Transform` is the nested loop over
  the style sheets and their rules. The bucket-by-bucket summary of the
  fold (`RunSummary`) is the basis of the ordering, exclusivity, passthrough
  and used-record properties.
- `scenarios.dfy` (module `Scenarios`): whole rules, as the browser
  serialises them, pushed through the classifier.
- `assembler.dfy` (module `Assembler`): the output text, and `Compile`,
  which is the fold followed by the assembly, with the end-to-end
  properties.

The CSS of a `<style>` element is put through
`renderedCSS.replace(/`/g, '\`')`. In a single-quoted JavaScript literal,
`'\`'` is a lone backtick, so the replacement changes nothing
(`Assembler.EscapeKeepsText`). The embedded CSS is the joined CSS
verbatim.

A custom style rule whose declarations lack a `--selector: V;` or an
`--events: V;` makes `exec(...)` return `null`. Reading `[1]` from that
throws inside the page callback, and nothing is written. The fold models
this as the outcome `Aborted`. Likewise `new Function('  return ' + call)`
throws a `SyntaxError` when a generic call is not a valid function body,
and then nothing is written either. Whether the engine accepts a body is a
parameter of the model, `parses`.

The project's documentation describes more than index.js does. This model
follows index.js:

- A rule whose plugin is not registered is dropped, not passed through.
- No error list is kept.
- Plugin names are not converted from kebab-case to camelCase.
- Arguments are passed on as raw text followed by `", "`, without splitting.
- There is no `[--options]` handling.
- Rules nested inside `@supports` are not visited.
- For `@supports` rules the last override value wins, for style rules the first.

## Model

| member | source | states |
|---|---|---|
| Text.Trim | index.js:64-68 | `trim` returns a slice of its input that is preceded and followed only by white space and neither starts nor ends with white space |
| Text.TrimPadded | index.js:131-133 | trimming a text padded with white space, whose own ends are not white space, gives back that text |
| Text.JoinHolds | index.js:256 | each element of a joined list occurs verbatim at its offset, the offsets follow list order, and one separator lies between neighbours |
| Text.JoinListed | index.js:244-245 | in a joined list placed after an opening, every element sits at its offset in list order, with one separator after each element but the last |
| Text.SplitJoin | index.js:261 | splitting the text joined with a line break at line breaks gives back the list, when no element holds a line break |
| Markers.ScopeMarker | index.js:48-51 | the scanner finds a match of `(.*)\[--js-.+\]` that outranks every other match by greedy priority, and finds none exactly when none exists |
| Markers.ScopeSelector | index.js:48-51 | when the scope pattern matches, the scope is the text before the `[--js-` of the match the engine commits to, or `*` when that text is empty; with no match it is `*`; a non-`*` scope is a proper prefix of the selector followed by `[--js-` |
| Markers.LastNameStart | index.js:54 | returns the last position up to a bound where `[--js-` is followed by a character other than `=`, or none when there is no such position |
| Markers.NameMarker | index.js:54 | the scanner finds the greedy-priority match of `.*\[--js-([^=]+).*\]`, and none exactly when none exists |
| Markers.StylePluginName | index.js:54 | when the name pattern matches, the plugin name is the selector with the committed match replaced by its group; otherwise the selector itself |
| Markers.ArgsMarker | index.js:59-61 | the scanner finds the greedy-priority match of `.*\[--js-.+="\((.*)\)"\]`, and none exactly when none exists |
| Markers.StyleArguments | index.js:59-61 | the argument string is empty exactly when the argument pattern does not match; otherwise it is the group of the committed match followed by `", "` |
| Markers.GroupNameAt | index.js:118-121 | from a fixed start, returns the greedy-priority match of `\(--js-([^)]+)\(.+\)\)`, or none when that start has no match |
| Markers.GroupNameFrom | index.js:118-121 | the search commits to the leftmost start and then the greedy choice, and finds nothing exactly when no match starts at or after the given position |
| Markers.GroupPluginName | index.js:118-121 | when the group name pattern matches, the plugin name is the condition with the committed match replaced by its group; otherwise the condition itself |
| Markers.GroupArgsMarker | index.js:126-128 | the scanner finds the greedy-priority match of the anchored `^\(--js-.*\((.*)\)\)`, and none exactly when none exists |
| Markers.GroupArguments | index.js:126-128 | the group argument string is empty exactly when the anchored test fails; otherwise it is the group of the committed match, then the text after it, then `", "` |
| Markers.BlockDeclarations | index.js:64-68 | a style rule serialised as `selector { m }` yields `m` trimmed as its declarations |
| Markers.BlockBody | index.js:131-134 | a supports rule serialised as `@supports cond { m }` yields `m` verbatim as its body, with no second trim |
| Markers.ValueEnd | index.js:77-81 | a match of `key([^;]+);` from a given start ends at the first `;` after the key, and that is its only possible end |
| Markers.NextValue | index.js:77-81 | returns the leftmost match of `key([^;]+);` at or after a position, or none exactly when there is none |
| Markers.FirstValue | index.js:77-81 | `exec` finds nothing exactly when the pattern matches nowhere; otherwise its group is the value of the leftmost match |
| Markers.LastMatchFound | index.js:140-151 | the global replace ends on its starting match or on some match at or after the resume position |
| Markers.LastValue | index.js:140-151 | the value left behind is that of the match the scan ends on, when every earlier match ends before it and no match starts after it; in any case it is empty or the value of some match |
| Shapes.BareRuleMarker | index.js:48-54 | for `scope[--js-name]`: the rule is powered, the plugin name is `name`, and the scope is `scope` or `*` when it is empty |
| Shapes.BareRuleMarkerArguments | index.js:59-61 | `scope[--js-name]` has an empty argument string when the scope holds no rule marker of its own |
| Shapes.RuleMarkerWithArguments | index.js:48-61 | for `scope[--js-name="(args)"]`: the name is `name`, the scope is `scope` or `*`, and the argument string is the raw `args` followed by `", "` |
| Shapes.GroupMarker | index.js:118-128 | for `(--js-name(args))` with non-empty arguments free of `(`: the plugin name is `name` and the argument string is `args` followed by `", "` |
| Shapes.GroupMarkerWithoutArguments | index.js:118-121 | for `(--js-name())`, `.+` finds nothing to match, so the plugin name is the whole condition, which differs from `name` |
| Shapes.GroupMarkerWithNestedArguments | index.js:118-121 | for `(--js-name(a(b)))`, the plugin name is `name(a`, which differs from `name` |
| Shapes.FirstDeclarationWins | index.js:77-81 | `exec` returns the value of the first `key V;` declaration, when the text before it holds no `key` and ends with `;`, `{` or `}` and white space, as serialised declarations and blocks do; anything may follow |
| Shapes.LastDeclarationWins | index.js:140-151 | the global replace leaves the value of the last `key V;` declaration, when each earlier `key` has its value ended by a `;` before it, the same separation holds, and no `key` follows |
| Markers.ScanReachesLast | index.js:143-146 | the global scan, resumed at or before the match it ends on, stops with that match |
| Shapes.FirstAndLastDeclaration | index.js:77-151 | with two declarations of one key, each separated from what precedes it as serialised CSS is, and no other occurrence of the key, style rules take the first value and supports rules the last |
| Objects.Put | index.js:70 | an assignment sets the key's value and leaves every other key's value unchanged; a new key goes to the end of the key order, while an existing key keeps the order unchanged |
| Objects.PutAllValues | index.js:136 | after assigning a list of keys, the object holds exactly the old keys and the listed keys, each listed key with the assigned value |
| Objects.PutAllOrder | index.js:218-228 | assigning keys keeps the old key order as a prefix; the new keys follow in order of their first assignment, each listed once |
| Invocations.ArgLine | index.js:87-89 | the argument line is empty exactly when the argument string is |
| Invocations.JoinAroundArgs | index.js:102-104 | the optional argument line is one line of the call, or no line at all |
| Invocations.RuleCallByLines | index.js:99-106 | a generic style invocation is the lines: `plugin(`, the quoted scope, the argument line if any, the quoted declarations, `  )` |
| Invocations.CustomRuleWrapsRuleCall | index.js:83-95 | a custom style invocation is the generic one wrapped in `jsincss(() => …, selector, events)` |
| Invocations.GroupCallByLines | index.js:168-176 | a generic supports invocation is the lines: `plugin(`, the argument line if any, an opening backtick, the body, a closing backtick, `)` |
| Invocations.CustomGroupCallByLines | index.js:153-163 | a custom supports invocation is the lines of the wrapped call, with the body followed on the same line by the closing backtick |
| Rules.Classify | index.js:45-186 | each rule takes exactly one route: pass-through iff it is not powered, with its text unchanged; dropped iff powered with an unregistered plugin; a crash iff a custom style rule lacks an override; otherwise an invocation of its own plugin, in its own namespace, custom iff the mode test holds |
| Rules.StyleRoute | index.js:45-112 | a powered style rule crashes exactly when it names both override properties and lacks a value for one of them; otherwise it invokes the plugin its selector names, in the rule namespace, custom exactly when both override properties are named |
| Rules.GroupRoute | index.js:115-181 | a powered supports rule always invokes the plugin its condition names, in the stylesheet namespace, custom exactly when its body holds both override property names |
| Rules.Apply | index.js:70-186 | one rule adds one entry to exactly one of the three lists, or none when dropped; everything else stays as it was; an invocation marks only its own plugin used, and only in its own namespace |
| Rules.Transform | index.js:38-42 | the nested loop over the style sheets and their rules computes the fold over all rules in document order |
| Rules.RunSummary | index.js:38-186 | the fold is abandoned exactly when some rule crashes; otherwise each list is its old contents followed by the contributions of the rules in rule order, and each used record has assigned every invoked plugin in turn |
| Rules.NamesInvoked | index.js:70-136 | a name is recorded in a namespace exactly when some rule invokes it there |
| Rules.NamesRegistered | index.js:56-123 | every recorded name is registered in the registry of its own kind |
| Rules.RunCompletes | index.js:72-81 | the pass completes exactly when no rule is a custom style rule lacking an override value |
| Rules.TextsArePlain | index.js:184-186 | the passed-through texts are the texts of the rules that are not powered |
| Rules.PassesThrough | index.js:184-186 | the CSS gains exactly the text of each non-powered rule, in order; with no powered rule nothing else changes |
| Rules.BucketSizes | index.js:83-186 | every route that is not dropped lands in exactly one of the three lists |
| Rules.RunSizes | index.js:38-186 | the lists grow in all by the number of rules minus those dropped |
| Rules.RunAppend | index.js:38-42 | the fold over two style sheets in sequence is the fold over the second, continued from the fold over the first |
| Rules.DroppedIsInvisible | index.js:56-123 | a rule whose plugin is not registered leaves no trace: the fold runs as if it were absent |
| Rules.UsedRecord | index.js:70-136 | the used record of a namespace is well formed, holds exactly the names invoked there, and values each of them "used" |
| Rules.UsedPlugins | index.js:56-136 | after a completed pass each used record holds exactly the plugins invoked in its namespace, each registered in its own kind and valued "used" |
| Rules.UsedOrder | index.js:70-136 | the used records list their keys in order of first invocation |
| Scenarios.BareStyleRule | index.js:45-108 | `scope[--js-name] { m }` without both override properties becomes the generic call of `name` with scope `scope` or `*`, no argument line, and `m` trimmed |
| Scenarios.StyleRuleWithArguments | index.js:45-108 | `scope[--js-name="(args)"] { m }` becomes the generic call with the raw `args` followed by `", "` |
| Scenarios.UnknownRulePlugin | index.js:54-56 | a rule marker naming an unregistered plugin is dropped |
| Scenarios.CustomRuleWithoutValues | index.js:72-81 | both override properties declared but no `;` in the declarations: the pass is abandoned |
| Scenarios.NoValue | index.js:77-78 | text without `;` has no override value |
| Scenarios.GroupRuleWithArguments | index.js:115-177 | `@supports (--js-name(args)) { m }` without `--selector` in `m` becomes the generic call of `name` with the body `m` verbatim |
| Scenarios.CustomGroupRule | index.js:138-164 | the same rule with both override names in its body becomes the custom call carrying the last value of each |
| Scenarios.NestedRulesBody | index.js:77-151 | in the body ` a { --selector: p; } b { --selector: r; } ` the supports scan keeps `r`, where `exec` gives `p` |
| Scenarios.GroupRuleWithoutArguments | index.js:118-123 | `@supports (--js-name())` is dropped even when `name` is registered |
| Scenarios.GroupRuleWithNestedArguments | index.js:118-123 | `@supports (--js-name(a(b)))` is dropped, even when `name` is registered, unless `name(a` is |
| Assembler.Prelude | index.js:207-236 | the runtime and plugin prelude is present exactly when some plugin was used, and then opens with `// jsincss` |
| Assembler.PreludeDeclares | index.js:216-232 | each used plugin is declared in the prelude as a constant holding its registered source |
| Assembler.GenericSection | index.js:238-251 | the generic section is present exactly when there is a generic invocation |
| Assembler.CustomSection | index.js:253-258 | the custom section is present exactly when there is a custom invocation |
| Assembler.GenericLists | index.js:240-249 | the generic invocations appear in their section in list order, each as the body of a function returning it, with `,\n` between neighbours |
| Assembler.CustomLists | index.js:255-256 | the custom invocations appear verbatim in their section in list order, with one line break between neighbours |
| Assembler.EscapeKeepsText | index.js:272 | the backtick replacement leaves every text unchanged |
| Assembler.StyleSection | index.js:269-273 | the style element holds the rendered CSS verbatim and ends by appending it to the document head |
| Assembler.Assemble | index.js:261-275 | with an output CSS path the CSS text is the rules joined by line breaks; without one that text is embedded in the script, which ends by appending it |
| Assembler.ScriptOpens | index.js:204-275 | the script opens with the runtime exactly when some plugin was used, and is empty exactly when nothing was used or invoked and the CSS has its own file |
| Assembler.Compile | index.js:38-244 | nothing is produced exactly when some rule is a custom style rule lacking an override value, or some rule's generic call is not a function body the engine accepts |
| Assembler.RejectedCalls | index.js:243-244 | after a completed pass, some generic invocation is rejected as a function body exactly when some rule's generic call is |
| Assembler.PlainStylesheets | index.js:184-275 | style sheets without powered rules compile to their CSS alone, either in a style element or as the CSS file next to an empty script |
| Assembler.AssemblePlain | index.js:204-273 | a record with nothing used or invoked assembles to its CSS alone |
| Assembler.RuntimeWhenInvoked | index.js:207-214 | the script opens with the jsincss runtime exactly when some rule invoked a registered plugin |
| Assembler.AnyPluginUsed | index.js:207-209 | some plugin is recorded as used exactly when some rule invokes one |
| Assembler.InvocationsEmitted | index.js:238-256 | every invocation of a completed pass is in the script: generic ones wrapped in a function, custom ones verbatim |
| Assembler.CallEmitted | index.js:243-256 | each entry of the two invocation lists is in the script |
| Assembler.CssFileLines | index.js:261-265 | the CSS file, read back line by line, gives the text of every non-powered rule in order, when none holds a line break |

## Left out

- The headless browser is not modelled: launching it, loading the page, injecting the style tag, parsing the CSS and closing it (index.js:18-25, 287). The parsed top-level rules are an input, `seq<seq<Rule>>`, one list per style sheet. A rule's type 1 or 12 becomes a constructor, and `rule.style` becomes the list of property names.
- Reading the input file, writing the output files and printing to the console (index.js:23, 265, 279-283) are left out. The assembler returns the texts instead. Without an output script path `console.log` prints the script followed by one more line break. That line break is not part of the modelled text.
- Command-line handling (index.js:294-300) and the async wrapper (index.js:16) have no logical content.
- `jsincss.toString()` and each plugin's `toString()` are foreign code. They are given as plain strings: the runtime source and the registry's name-to-source maps. The registry lists passed into the page (index.js:197-200) are the key sets of those maps.
- `new Function('  return ' + call)` is written out as the source text ECMA-262 gives dynamic functions (CreateDynamicFunction, section 20.2.1.1.1). A JavaScript engine that serialises functions differently is not modelled.
- JavaScript parsing is not modelled. Whether the engine accepts `'  return ' + call` as a function body is the uninterpreted parameter `parses`.
- Markers.ScopeMarker: `.` is read as any character here. In JavaScript it excludes line terminators, so a selector holding a line break could match differently. The same holds for Markers.NameMarker, Markers.ArgsMarker, Markers.GroupNameFrom and Markers.GroupArgsMarker.
- Scenarios.CustomGroupRule: the override values are stated as `LastValue` of the body rather than as concrete texts, because the body is arbitrary text. Shapes.LastDeclarationWins gives the concrete value for any body whose last declaration is separated as serialised CSS is, and Scenarios.NestedRulesBody works one body through.
- Objects: `Object.keys` lists integer-like keys first, in numeric order. That ordering is not modelled, and all keys keep insertion order.
- Objects: assigning to the key `__proto__` goes through the prototype setter and creates no own key. The model treats it as an ordinary key, so a plugin registered under that name would be recorded and declared here, while index.js:70, 136 and 216-232 would neither list it nor emit its constant.
- String lengths and positions count characters, where JavaScript counts UTF-16 code units. The two differ only for characters outside the Basic Multilingual Plane.
