# Touch / Pointer Events check — Dafny model

A model of the "touch" check of the modern.IE static code scan
(`lib/checks/check-touch.js`). The check decides whether a website shows
signs of the Pointer Events API:

- the `pointer-support` CSSLint rule watches the property declarations of
  one stylesheet and, at the end of the sheet, reports "No CSS Touch found"
  at line 0, column 0 when none of the fifteen `-ms-` properties was
  declared;
- `checkCSS` is true for a stylesheet whose lint report holds no
  `pointer-support` message (the polarity is inverted: no message means
  support was found);
- `checkJS` tries five fixed patterns on a script's text, in order, and
  stops at the first that occurs;
- `check` collects the stylesheet results, passes if one is true, and only
  otherwise collects and scans the script results; it returns
  `{testName: "touch", passed}`.

Two modules:

- `JsPattern` (`js_pattern.dfy`): the five regexes are runs of literal
  characters with at most one `.`, so a pattern is a sequence of atoms
  (`Char(c)` or `AnyChar`) and `RegExp.test` is a search for an offset at
  which every atom matches (`Test`, proved equal to the existential
  `Occurs`).
- `CheckTouch` (`check_touch.dfy`): the two tables, the lint message and
  reporter, the rule as a class with its `founded` flag and two listeners,
  `CheckCss`, `CheckJs`, `Check`, and the lemmas relating them.

The rule's listeners and the reporter change state, so they are class
methods; `RunRule` drives them over a stylesheet's property names and is
proved to yield `RuleMessages(names)`, a fold over the names.
`CheckJs` and `Check` keep the source's loops (with their early `break`s)
and are proved against the predicates `JsTouch` and `Passed`; the two
collecting loops of `check` are the methods `CollectCss` and `CollectJs`,
and its two identical early-exit scans are one method, `ScanForTrue`.

The `.` in `navigator.msPointerEnabled` and `navigator.msMaxTouchPoints` is
a JavaScript regex wildcard. The regexes have no `u` flag, so they run over
UTF-16 code units: the `.` matches one code unit that is not a line
terminator (`\n`, `\r`, U+2028, U+2029). A Dafny `string` is a sequence
of Unicode scalar values, so the model lets `.` match a character that is a
single code unit and not a line terminator (`AtomMatches`, `Utf16Units`).
For these patterns that is exact: an ASCII letter follows the `.`, and such
a letter never matches the second half of a surrogate pair.

The first pattern is written `/MSgesture/` with a lower-case `g`, whereas
the Internet Explorer object it presumably looks for is `MSGesture`; the
model keeps the pattern as written (`GestureIsCaseSensitive` shows that
`MSGesture` alone is not detected).

## Model

| member | source | states |
|---|---|---|
| `JsPattern.SearchFrom` | lib/checks/check-touch.js:82 | the search from offset k finds a match iff the pattern matches at some offset k' >= k that fits in the text |
| `JsPattern.Test` | lib/checks/check-touch.js:82 | the regex test is true iff the pattern occurs somewhere in the text |
| `JsPattern.AnyOccursPermutation` | lib/checks/check-touch.js:81-86 | whether some pattern of a list occurs depends only on the multiset of patterns, not their order |
| `JsPattern.LiteralMatchesExactly` | lib/checks/check-touch.js:37-39 | a literal pattern matches at offset k iff the text's slice there equals the literal, character for character and case-sensitively |
| `JsPattern.MatchesAtConcat` | lib/checks/check-touch.js:40-41 | a concatenated pattern matches iff its first part matches and its second part matches right after it |
| `JsPattern.OccursExtends` | lib/checks/check-touch.js:82 | a pattern found in a text is found in every text that contains that text |
| `JsPattern.WildcardExamples` | lib/checks/check-touch.js:40-41 | the `.` matches a letter, a dot and a tab, but not `\n`, `\r`, U+2028, U+2029 or a character outside the Basic Multilingual Plane; a literal `g` does not match `G` |
| `CheckTouch.Reporter.constructor` | lib/checks/check-touch.js:50 | a fresh reporter holds no messages |
| `CheckTouch.Reporter.Report` | lib/checks/check-touch.js:62 | reporting appends exactly one message (rule id, text, line, column) and keeps the earlier ones |
| `CheckTouch.CssRulesDistinct` | lib/checks/check-touch.js:22-36 | the property table holds fifteen names, all different |
| `CheckTouch.CssRulesArePrefixed` | lib/checks/check-touch.js:22-36 | every table entry begins with the `-ms-` prefix |
| `CheckTouch.CssRuleIsExactName` | lib/checks/check-touch.js:55 | membership is by the exact name: `-ms-touch-action` is listed; its upper-case form, the unprefixed name, a name with a leading space and a longer name are not |
| `CheckTouch.FoundAfter` | lib/checks/check-touch.js:52-57 | the folded flag is true iff it started true or some property name is in the table: once set it stays set, and names outside the table never set it |
| `CheckTouch.RuleMessages` | lib/checks/check-touch.js:52-63 | at most one message; none iff some property name is in the table; any message has rule id `pointer-support`, text "No CSS Touch found", line 0 and column 0 |
| `CheckTouch.PointerSupportRule.constructor` | lib/checks/check-touch.js:50-52 | the rule starts with `founded` false, bound to the given reporter |
| `CheckTouch.PointerSupportRule.OnProperty` | lib/checks/check-touch.js:53-58 | the flag becomes its old value or'ed with exact membership of the name in the table |
| `CheckTouch.PointerSupportRule.OnEndStylesheet` | lib/checks/check-touch.js:60-64 | the reporter gains the "No CSS Touch found" message iff the flag is false, and nothing otherwise |
| `CheckTouch.RunRule` | lib/checks/check-touch.js:50-65 | driving the listeners over a stylesheet's property names reports exactly `RuleMessages(names)` |
| `CheckTouch.Applying` | lib/checks/check-touch.js:71-73 | the filter keeps exactly the messages whose rule id is in the rule-id list, and never grows the list |
| `CheckTouch.ApplyingCounts` | lib/checks/check-touch.js:71-73 | each applying message is kept as many times as the report holds it; other messages are dropped |
| `CheckTouch.ApplyingAppend` | lib/checks/check-touch.js:71-73 | the filter keeps the report's order: filtering a concatenation gives the concatenation of the filtered parts |
| `CheckTouch.CheckCss` | lib/checks/check-touch.js:68-77 | true iff no message of the report has rule id `pointer-support` |
| `CheckTouch.CheckCssIgnoresOtherRules` | lib/checks/check-touch.js:71-74 | inserting a message of another rule anywhere in a report leaves `CheckCss` unchanged |
| `CheckTouch.CheckCssOfLintedSheet` | lib/checks/check-touch.js:52-76 | for a report holding the rule's messages among other rules' messages, `CheckCss` is true iff the stylesheet declares a listed property |
| `CheckTouch.CheckJs` | lib/checks/check-touch.js:79-89 | true iff some of the five patterns occurs in the content; the loop stops at the first pattern that occurs, and none before it does |
| `CheckTouch.JsTouchOrderIrrelevant` | lib/checks/check-touch.js:81-86 | trying the patterns in any other order gives the same answer |
| `CheckTouch.NavigatorMatchesExactly` | lib/checks/check-touch.js:40-41 | `navigator.<name>` matches at offset k iff the text there is "navigator", then one code unit that does not end a line, then the name |
| `CheckTouch.LiteralDetected` | lib/checks/check-touch.js:37-39 | any content containing "MSgesture", "MSPointer" or "msContentZoomFactor" is detected |
| `CheckTouch.NavigatorDetected` | lib/checks/check-touch.js:40-41 | any content containing "navigator", then any one code unit that does not end a line, then "msPointerEnabled" or "msMaxTouchPoints", is detected |
| `CheckTouch.JsTouchIff` | lib/checks/check-touch.js:37-41 | the pattern table spelled out: content is detected iff one of the five names (with the wildcard after "navigator") starts at some offset |
| `CheckTouch.GestureIsCaseSensitive` | lib/checks/check-touch.js:37-41 | content "MSGesture" matches none of the five patterns |
| `CheckTouch.ScanForTrue` | lib/checks/check-touch.js:105-110 | the early-exit scan finds a true entry iff the collected results hold one |
| `CheckTouch.CollectCss` | lib/checks/check-touch.js:101-103 | the collected stylesheet results are one `checkCSS` result per stylesheet, in order, and one is true iff some stylesheet passes |
| `CheckTouch.CollectJs` | lib/checks/check-touch.js:113-115 | the collected script results are one `checkJS` result per script, in order |
| `CheckTouch.CollectedAll` | lib/checks/check-touch.js:117-122 | once the script results are appended to the stylesheet results, one of them is true iff the check passes |
| `CheckTouch.Check` | lib/checks/check-touch.js:92-129 | `testName` is "touch"; `passed` iff some stylesheet passes or some script matches; the collected results are one `checkCSS` result per stylesheet in order, followed by one `checkJS` result per script, in order, only when no stylesheet passed |
| `CheckTouch.NothingToScanFails` | lib/checks/check-touch.js:96-123 | with no stylesheets and no scripts the check does not pass |
| `CheckTouch.PassedPermutationInvariant` | lib/checks/check-touch.js:101-122 | reordering the stylesheets or the scripts does not change `passed` |
| `CheckTouch.CssPermutation` | lib/checks/check-touch.js:105-110 | if some stylesheet passes, some stylesheet of any reordering passes |
| `CheckTouch.JsPermutation` | lib/checks/check-touch.js:113-122 | if some script matches, some script of any reordering matches |
| `CheckTouch.PassedFromStylesheets` | lib/checks/check-touch.js:45-123 | for stylesheets linted by the rule, the check passes iff some stylesheet declares a listed property or some script matches a pattern |
| `CheckTouch.TouchActionPasses` | lib/checks/check-touch.js:101-110 | a single stylesheet declaring `-ms-touch-action` and no scripts passes |
| `CheckTouch.ScriptFallbackPasses` | lib/checks/check-touch.js:112-123 | a stylesheet without listed properties and a script containing "MSPointerDown" passes |

## Left out

- The `Deferred` promise: it is resolved before `check` returns, so `Check` returns the result record directly.
- The CSSLint engine: parsing, `addListener`, the global `CSSLint.addRule` registration and the internals of `reporter.report`. The model takes a stylesheet as the sequence of its property names, in declaration order, and the reporter as a list of messages.
- The `rule` object and the empty evidence string passed to `reporter.report`: a message keeps only the rule's id, the text, the line and the column.
- The general regex engine: only the five fixed patterns are modelled, as literal characters and one wildcard.
- CheckJs: the source's patterns are module-level regexes with the `g` flag, so `test` resumes from the end of that regex's previous match on the next call, and a later script can be missed; the model searches every script from its start.
- The shape of the input objects is untyped in the source; the model assumes records with `report.messages`, `rule.id` and `content` fields.
- Strings as UTF-16 code units: a JavaScript string may hold a lone surrogate, which a Dafny `string` cannot, so such scripts are not modelled. Every other script is the same sequence of characters in both, and for these five patterns matching per character gives the regex's answer.
