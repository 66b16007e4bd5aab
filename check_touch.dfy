/**
 * The "touch" check: looks for signs of the Pointer Events API in a site's
 * stylesheets (through the `pointer-support` lint rule) and, failing that,
 * in its scripts.
 */
module CheckTouch {
  import opened JsPattern

  // ---------------------------------------------------------------------
  // The fixed tables
  // ---------------------------------------------------------------------

  /** The fifteen prefixed CSS properties whose use counts as touch support. */
  const CssRules: seq<string> := [
    "-ms-touch-action",
    "-ms-scroll-snap-points-x",
    "-ms-scroll-snap-points-y",
    "-ms-scroll-snap-type",
    "-ms-scroll-snap-x",
    "-ms-scroll-snap-y",
    "-ms-scroll-chaining",
    "-ms-content-zooming",
    "-ms-content-zoom-limit",
    "-ms-content-zoom-limit-max",
    "-ms-content-zoom-limit-min",
    "-ms-content-zoom-chaining",
    "-ms-content-zoom-snap-points",
    "-ms-content-zoom-snap-type",
    "-ms-content-zoom-snap"]

  /** `navigator.<name>`, where the `.` is a regex wildcard. */
  function NavigatorProperty(name: string): Pattern {
    Literal("navigator") + [AnyChar] + Literal(name)
  }

  /** The five script patterns, in the order the check tries them. */
  const JsRules: seq<Pattern> := [
    Literal("MSgesture"),
    Literal("MSPointer"),
    Literal("msContentZoomFactor"),
    NavigatorProperty("msPointerEnabled"),
    NavigatorProperty("msMaxTouchPoints")]

  /** The rule ids whose messages `checkCSS` looks for. */
  const PointerSupportId: string := "pointer-support"
  const CssLintRules: seq<string> := [PointerSupportId]

  const NoTouchText: string := "No CSS Touch found"

  // ---------------------------------------------------------------------
  // Linter messages and the reporter that collects them
  // ---------------------------------------------------------------------

  /** A lint message: the id of the rule that raised it, its text and position. */
  datatype Message = Message(ruleId: string, text: string, line: int, col: int)

  /** The one message the `pointer-support` rule can raise. */
  function NoTouchMessage(): Message {
    Message(PointerSupportId, NoTouchText, 0, 0)
  }

  /** The linter's reporter: it keeps every message reported during a run, in order. */
  class Reporter {
    var messages: seq<Message>

    constructor ()
      ensures messages == []
    {
      messages := [];
    }

    method Report(text: string, line: int, col: int, ruleId: string)
      modifies this
      ensures messages == old(messages) + [Message(ruleId, text, line, col)]
    {
      messages := messages + [Message(ruleId, text, line, col)];
    }
  }

  // ---------------------------------------------------------------------
  // The `pointer-support` rule
  // ---------------------------------------------------------------------

  /** Exact, case-sensitive membership in the property table. */
  predicate IsCssRule(name: string) {
    name in CssRules
  }

  /**
   * The rule's `founded` flag as a left fold over the property names of a
   * stylesheet, starting from `founded`.
   */
  function FoundAfter(founded: bool, names: seq<string>): (r: bool)
    ensures r <==> founded || exists i :: 0 <= i < |names| && IsCssRule(names[i])
    decreases |names|
  {
    if names == [] then
      founded
    else
      assert forall i :: 1 <= i < |names| ==> names[1..][i - 1] == names[i];
      FoundAfter(founded || IsCssRule(names[0]), names[1..])
  }

  /** The messages the rule reports for a stylesheet with these property names. */
  function RuleMessages(names: seq<string>): (ms: seq<Message>)
    ensures |ms| <= 1
    ensures ms == [] <==> exists i :: 0 <= i < |names| && IsCssRule(names[i])
    ensures forall m :: m in ms ==> m == Message(PointerSupportId, NoTouchText, 0, 0)
  {
    if FoundAfter(false, names) then [] else [NoTouchMessage()]
  }

  /** One run of the rule's `init`: the `founded` flag and the two listeners. */
  class PointerSupportRule {
    var founded: bool
    const reporter: Reporter

    constructor (reporter: Reporter)
      ensures !founded && this.reporter == reporter
    {
      founded := false;
      this.reporter := reporter;
    }

    /** The "property" listener. */
    method OnProperty(name: string)
      modifies this
      ensures founded == (old(founded) || IsCssRule(name))
    {
      if IsCssRule(name) {
        founded := true;
      }
    }

    /** The "endstylesheet" listener. */
    method OnEndStylesheet()
      modifies reporter
      ensures reporter.messages
        == old(reporter.messages) + (if founded then [] else [NoTouchMessage()])
    {
      if !founded {
        reporter.Report(NoTouchText, 0, 0, PointerSupportId);
      }
    }
  }

  /**
   * Lints one stylesheet with only the `pointer-support` rule: the parser
   * fires one "property" event per declaration, in order, then
   * "endstylesheet".
   */
  method RunRule(names: seq<string>) returns (messages: seq<Message>)
    ensures messages == RuleMessages(names)
  {
    var reporter := new Reporter();
    var rule := new PointerSupportRule(reporter);
    var i := 0;
    while i < |names|
      invariant 0 <= i <= |names|
      invariant rule.founded <==> exists j :: 0 <= j < i && IsCssRule(names[j])
      invariant reporter.messages == []
    {
      rule.OnProperty(names[i]);
      i := i + 1;
    }
    rule.OnEndStylesheet();
    messages := reporter.messages;
  }

  /** The table holds fifteen different names. */
  lemma CssRulesDistinct()
    ensures |CssRules| == 15
    ensures forall i, j :: 0 <= i < j < |CssRules| ==> CssRules[i] != CssRules[j]
  {
  }

  /** Membership is by the exact name: case, spacing and the prefix all count. */
  lemma CssRuleIsExactName()
    ensures IsCssRule("-ms-touch-action")
    ensures !IsCssRule("-MS-TOUCH-ACTION") && !IsCssRule("touch-action")
    ensures !IsCssRule(" -ms-touch-action") && !IsCssRule("-ms-touch-action-x")
  {
  }

  /** Every listed property carries the `-ms-` vendor prefix. */
  lemma CssRulesArePrefixed(name: string)
    requires IsCssRule(name)
    ensures |name| > 4 && name[..4] == "-ms-"
  {
  }

  // ---------------------------------------------------------------------
  // checkCSS
  // ---------------------------------------------------------------------

  datatype Report = Report(messages: seq<Message>)
  datatype CssAsset = CssAsset(report: Report)

  /** The messages raised by one of the rules in `CssLintRules`, in their order. */
  function Applying(ms: seq<Message>): (r: seq<Message>)
    ensures |r| <= |ms|
    ensures forall m :: m in r <==> m in ms && m.ruleId in CssLintRules
  {
    if ms == [] then
      []
    else
      (if ms[0].ruleId in CssLintRules then [ms[0]] else []) + Applying(ms[1..])
  }

  /** The filter keeps every applying message as often as the report holds it, and no other. */
  lemma {:induction false} ApplyingCounts(ms: seq<Message>, m: Message)
    ensures multiset(Applying(ms))[m] == if m.ruleId in CssLintRules then multiset(ms)[m] else 0
  {
    if ms != [] {
      assert ms == [ms[0]] + ms[1..];
      ApplyingCounts(ms[1..], m);
    }
  }

  /** The filter keeps the report's order: filtering a concatenation concatenates the filtered parts. */
  lemma {:induction false} ApplyingAppend(a: seq<Message>, b: seq<Message>)
    ensures Applying(a + b) == Applying(a) + Applying(b)
  {
    if a == [] {
      assert a + b == b;
    } else {
      assert (a + b)[0] == a[0] && (a + b)[1..] == a[1..] + b;
      ApplyingAppend(a[1..], b);
      var head := if a[0].ruleId in CssLintRules then [a[0]] else [];
      assert Applying(a + b) == head + (Applying(a[1..]) + Applying(b));
      assert Applying(a) == head + Applying(a[1..]);
    }
  }

  /** True iff the report holds no `pointer-support` message. */
  function CheckCss(css: CssAsset): (touchImplemented: bool)
    ensures touchImplemented <==>
      forall i :: 0 <= i < |css.report.messages| ==> css.report.messages[i].ruleId != PointerSupportId
  {
    var apply := Applying(css.report.messages);
    assert apply != [] ==> apply[0] in apply;
    assert forall i :: 0 <= i < |css.report.messages| ==> css.report.messages[i] in css.report.messages;
    |apply| == 0
  }

  /** Messages of other rules added anywhere in a report do not change `CheckCss`. */
  lemma CheckCssIgnoresOtherRules(before: seq<Message>, m: Message, after: seq<Message>)
    requires m.ruleId != PointerSupportId
    ensures CheckCss(CssAsset(Report(before + [m] + after)))
         == CheckCss(CssAsset(Report(before + after)))
  {
  }

  /** A report holds no `pointer-support` message. */
  ghost predicate NoPointerSupportMessage(ms: seq<Message>) {
    forall i :: 0 <= i < |ms| ==> ms[i].ruleId != PointerSupportId
  }

  /**
   * For a stylesheet linted with the rule among others, `CheckCss` is true
   * iff the stylesheet declares one of the listed properties.
   */
  lemma CheckCssOfLintedSheet(names: seq<string>, before: seq<Message>, after: seq<Message>)
    requires NoPointerSupportMessage(before) && NoPointerSupportMessage(after)
    ensures CheckCss(CssAsset(Report(before + RuleMessages(names) + after)))
        <==> exists i :: 0 <= i < |names| && IsCssRule(names[i])
  {
  }

  // ---------------------------------------------------------------------
  // checkJS
  // ---------------------------------------------------------------------

  datatype JsAsset = JsAsset(content: string)

  /** Some script pattern occurs in the text. */
  ghost predicate JsTouch(content: string) {
    AnyOccurs(JsRules, content)
  }

  /**
   * Tries the patterns in order and stops at the first that occurs.
   * `firstMatch` is the index of that pattern, or `|JsRules|` when none does.
   *
   * The source's patterns are module-level regexes with the `g` flag, so
   * `test` on one of them resumes from the end of that regex's previous
   * match across calls; this model searches every text from its start.
   */
  method CheckJs(js: JsAsset) returns (touchImplemented: bool, ghost firstMatch: nat)
    ensures touchImplemented <==> JsTouch(js.content)
    ensures firstMatch <= |JsRules|
    ensures touchImplemented <==> firstMatch < |JsRules|
    ensures touchImplemented ==> Occurs(JsRules[firstMatch], js.content)
    ensures forall j :: 0 <= j < firstMatch ==> !Occurs(JsRules[j], js.content)
  {
    touchImplemented := false;
    var i := 0;
    while i < |JsRules|
      invariant 0 <= i <= |JsRules|
      invariant !touchImplemented
      invariant forall j :: 0 <= j < i ==> !Occurs(JsRules[j], js.content)
    {
      touchImplemented := Test(JsRules[i], js.content);
      if touchImplemented {
        break;
      }
      i := i + 1;
    }
    firstMatch := i;
  }

  /** The order in which the patterns are tried does not change the answer. */
  lemma JsTouchOrderIrrelevant(order: seq<Pattern>, content: string)
    requires multiset(order) == multiset(JsRules)
    ensures AnyOccurs(order, content) <==> JsTouch(content)
  {
    AnyOccursPermutation(order, JsRules, content);
  }

  /**
   * `navigator.<name>` matches at `k` iff the text there is "navigator",
   * then one code unit that does not end a line, then the name.
   */
  lemma NavigatorMatchesExactly(name: string, s: string, k: nat)
    requires k + 10 + |name| <= |s|
    ensures MatchesAt(NavigatorProperty(name), s, k)
        <==> s[k..k + 9] == "navigator" && AtomMatches(AnyChar, s[k + 9])
             && s[k + 10..k + 10 + |name|] == name
  {
    MatchesAtConcat(Literal("navigator") + [AnyChar], Literal(name), s, k);
    MatchesAtConcat(Literal("navigator"), [AnyChar], s, k);
    LiteralMatchesExactly("navigator", s, k);
    LiteralMatchesExactly(name, s, k + 10);
    assert MatchesAt([AnyChar], s, k + 9) <==> AtomMatches(AnyChar, s[k + 9]) by {
      assert [AnyChar][0] == AnyChar;
    }
  }

  /** A script containing one of the three literal patterns is detected. */
  lemma LiteralDetected(lit: string, pre: string, post: string)
    requires lit == "MSgesture" || lit == "MSPointer" || lit == "msContentZoomFactor"
    ensures JsTouch(pre + lit + post)
  {
    var i := if lit == "MSgesture" then 0 else if lit == "MSPointer" then 1 else 2;
    assert JsRules[i] == Literal(lit);
    LiteralMatchesExactly(lit, lit, 0);
    assert lit[0..|lit|] == lit;
    assert Occurs(JsRules[i], lit);
    OccursExtends(JsRules[i], pre, lit, post);
  }

  /**
   * A script containing "navigator", any one code unit that does not end a
   * line, and one of the two property names is detected.
   */
  lemma NavigatorDetected(name: string, pre: string, c: char, post: string)
    requires name == "msPointerEnabled" || name == "msMaxTouchPoints"
    requires AtomMatches(AnyChar, c)
    ensures JsTouch(pre + "navigator" + [c] + name + post)
  {
    var i := if name == "msPointerEnabled" then 3 else 4;
    var t := "navigator" + [c] + name;
    assert t[0..9] == "navigator" && t[9] == c && t[10..10 + |name|] == name;
    NavigatorMatchesExactly(name, t, 0);
    assert Occurs(JsRules[i], t);
    OccursExtends(JsRules[i], pre, t, post);
    assert pre + t + post == pre + "navigator" + [c] + name + post;
  }

  /** One of the five legacy names starts at offset `k` of the text. */
  ghost predicate LegacyApiAt(c: string, k: nat) {
    (k + 9 <= |c| && (c[k..k + 9] == "MSgesture" || c[k..k + 9] == "MSPointer"))
    || (k + 19 <= |c| && c[k..k + 19] == "msContentZoomFactor")
    || (k + 26 <= |c| && c[k..k + 9] == "navigator" && AtomMatches(AnyChar, c[k + 9])
        && (c[k + 10..k + 26] == "msPointerEnabled" || c[k + 10..k + 26] == "msMaxTouchPoints"))
  }

  /** The pattern table, spelled out: a script is detected iff one of the five names occurs in it. */
  lemma JsTouchIff(c: string)
    ensures JsTouch(c) <==> exists k: nat :: LegacyApiAt(c, k)
  {
    if JsTouch(c) {
      var i :| 0 <= i < |JsRules| && Occurs(JsRules[i], c);
      var k: nat :| k + |JsRules[i]| <= |c| && MatchesAt(JsRules[i], c, k);
      if i == 0 {
        LiteralMatchesExactly("MSgesture", c, k);
      } else if i == 1 {
        LiteralMatchesExactly("MSPointer", c, k);
      } else if i == 2 {
        LiteralMatchesExactly("msContentZoomFactor", c, k);
      } else if i == 3 {
        NavigatorMatchesExactly("msPointerEnabled", c, k);
      } else {
        NavigatorMatchesExactly("msMaxTouchPoints", c, k);
      }
      assert LegacyApiAt(c, k);
    }
    if exists k: nat :: LegacyApiAt(c, k) {
      var k: nat :| LegacyApiAt(c, k);
      var i;
      if k + 9 <= |c| && c[k..k + 9] == "MSgesture" {
        i := 0;
        LiteralMatchesExactly("MSgesture", c, k);
      } else if k + 9 <= |c| && c[k..k + 9] == "MSPointer" {
        i := 1;
        LiteralMatchesExactly("MSPointer", c, k);
      } else if k + 19 <= |c| && c[k..k + 19] == "msContentZoomFactor" {
        i := 2;
        LiteralMatchesExactly("msContentZoomFactor", c, k);
      } else if c[k + 10..k + 26] == "msPointerEnabled" {
        i := 3;
        NavigatorMatchesExactly("msPointerEnabled", c, k);
      } else {
        i := 4;
        NavigatorMatchesExactly("msMaxTouchPoints", c, k);
      }
      assert MatchesAt(JsRules[i], c, k);
      assert Occurs(JsRules[i], c);
    }
  }

  /** `MSgesture` is matched case-sensitively: `MSGesture` is not detected. */
  lemma GestureIsCaseSensitive()
    ensures !JsTouch("MSGesture")
  {
    var s := "MSGesture";
    forall i, k: nat | 0 <= i < |JsRules| && k + |JsRules[i]| <= |s|
      ensures !MatchesAt(JsRules[i], s, k)
    {
      assert i < 2 && k == 0;
      assert !AtomMatches(JsRules[i][2], s[2]);
    }
  }

  // ---------------------------------------------------------------------
  // check
  // ---------------------------------------------------------------------

  datatype Website = Website(css: seq<CssAsset>, js: seq<JsAsset>)
  datatype TestResult = TestResult(testName: string, passed: bool)

  /** Some stylesheet passes `CheckCss`. */
  predicate AnyCssPasses(css: seq<CssAsset>) {
    exists i :: 0 <= i < |css| && CheckCss(css[i])
  }

  /** Some script matches a pattern. */
  ghost predicate AnyJsPasses(js: seq<JsAsset>) {
    exists i :: 0 <= i < |js| && JsTouch(js[i].content)
  }

  /** What `check` reports as `passed`. */
  ghost predicate Passed(website: Website) {
    AnyCssPasses(website.css) || AnyJsPasses(website.js)
  }

  /** The per-asset results `check` collects, in order. */
  function CssResults(css: seq<CssAsset>): seq<bool> {
    seq(|css|, i requires 0 <= i < |css| => CheckCss(css[i]))
  }

  ghost function JsResults(js: seq<JsAsset>): seq<bool> {
    seq(|js|, i requires 0 <= i < |js| => JsTouch(js[i].content))
  }

  /** One of the early-exit scans of the collected results: stops at the first true one. */
  method ScanForTrue(results: seq<bool>) returns (found: bool)
    ensures found <==> exists j :: 0 <= j < |results| && results[j]
  {
    found := false;
    var i := 0;
    while i < |results|
      invariant 0 <= i <= |results|
      invariant !found
      invariant forall j :: 0 <= j < i ==> !results[j]
    {
      if results[i] {
        found := true;
        break;
      }
      i := i + 1;
    }
  }

  /**
   * The check. `result` is the list the source builds: the stylesheet
   * results, followed by the script results only when no stylesheet passed,
   * so scripts are not examined at all once a stylesheet passes.
   */
  method Check(website: Website) returns (test: TestResult, ghost result: seq<bool>)
    ensures test.testName == "touch"
    ensures test.passed <==> Passed(website)
    ensures result == CssResults(website.css)
      + (if AnyCssPasses(website.css) then [] else JsResults(website.js))
  {
    test := TestResult("touch", false);
    var results := CollectCss(website.css);

    var found := ScanForTrue(results);
    if found {
      test := test.(passed := true);
    }

    if !test.passed {
      var jsResults := CollectJs(website.js);
      results := results + jsResults;
      CollectedAll(website, results);

      found := ScanForTrue(results);
      if found {
        test := test.(passed := true);
      }
    }
    result := results;
  }

  /** The first loop of the check: one `checkCSS` result per stylesheet, in order. */
  method CollectCss(css: seq<CssAsset>) returns (results: seq<bool>)
    ensures results == CssResults(css)
    ensures (exists j :: 0 <= j < |results| && results[j]) <==> AnyCssPasses(css)
  {
    results := [];
    var i := 0;
    while i < |css|
      invariant 0 <= i <= |css|
      invariant |results| == i
      invariant forall j :: 0 <= j < i ==> results[j] == CheckCss(css[j])
    {
      results := results + [CheckCss(css[i])];
      i := i + 1;
    }
    assert results == CssResults(css);
  }

  /** The third loop of the check: one `checkJS` result per script, in order. */
  method CollectJs(js: seq<JsAsset>) returns (results: seq<bool>)
    ensures results == JsResults(js)
  {
    results := [];
    var i := 0;
    while i < |js|
      invariant 0 <= i <= |js|
      invariant |results| == i
      invariant forall j :: 0 <= j < i ==> results[j] == JsTouch(js[j].content)
    {
      var r, _ := CheckJs(js[i]);
      results := results + [r];
      i := i + 1;
    }
    assert results == JsResults(js);
  }

  /** All results as collected when no stylesheet passed: true somewhere iff the check passes. */
  lemma CollectedAll(w: Website, results: seq<bool>)
    requires results == CssResults(w.css) + JsResults(w.js)
    ensures (exists j :: 0 <= j < |results| && results[j]) <==> Passed(w)
  {
    var cs, js := CssResults(w.css), JsResults(w.js);
    var n := |cs|;
    if exists j :: 0 <= j < |results| && results[j] {
      var j :| 0 <= j < |results| && results[j];
      if j < n {
        assert results[j] == cs[j];
      } else {
        assert results[j] == js[j - n];
      }
    }
    if AnyCssPasses(w.css) {
      var k :| 0 <= k < n && CheckCss(w.css[k]);
      assert results[k] == cs[k];
    }
    if AnyJsPasses(w.js) {
      var k :| 0 <= k < |js| && JsTouch(w.js[k].content);
      assert results[n + k] == js[k];
    }
  }

  /** With no assets at all the check does not pass. */
  lemma NothingToScanFails()
    ensures !Passed(Website([], []))
  {
  }

  /** Reordering either list of assets does not change whether the check passes. */
  lemma PassedPermutationInvariant(w: Website, w': Website)
    requires multiset(w.css) == multiset(w'.css) && multiset(w.js) == multiset(w'.js)
    ensures Passed(w) <==> Passed(w')
  {
    CssPermutation(w.css, w'.css);
    CssPermutation(w'.css, w.css);
    JsPermutation(w.js, w'.js);
    JsPermutation(w'.js, w.js);
  }

  lemma CssPermutation(css: seq<CssAsset>, css': seq<CssAsset>)
    requires multiset(css) == multiset(css')
    ensures AnyCssPasses(css) ==> AnyCssPasses(css')
  {
    if AnyCssPasses(css) {
      var i :| 0 <= i < |css| && CheckCss(css[i]);
      assert css[i] in multiset(css');
      var i' :| 0 <= i' < |css'| && css'[i'] == css[i];
    }
  }

  lemma JsPermutation(js: seq<JsAsset>, js': seq<JsAsset>)
    requires multiset(js) == multiset(js')
    ensures AnyJsPasses(js) ==> AnyJsPasses(js')
  {
    if AnyJsPasses(js) {
      var i :| 0 <= i < |js| && JsTouch(js[i].content);
      assert js[i] in multiset(js');
      var i' :| 0 <= i' < |js'| && js'[i'] == js[i];
    }
  }

  /**
   * End to end: for stylesheets each linted by the rule alone, the check
   * passes iff some stylesheet declares a listed property, or some script
   * matches a pattern.
   */
  lemma PassedFromStylesheets(sheets: seq<seq<string>>, js: seq<JsAsset>)
    ensures Passed(Website(seq(|sheets|, i requires 0 <= i < |sheets| => CssAsset(Report(RuleMessages(sheets[i])))), js))
        <==> (exists i, k :: 0 <= i < |sheets| && 0 <= k < |sheets[i]| && IsCssRule(sheets[i][k]))
             || AnyJsPasses(js)
  {
    var css := seq(|sheets|, i requires 0 <= i < |sheets| => CssAsset(Report(RuleMessages(sheets[i]))));
    forall i | 0 <= i < |sheets|
      ensures CheckCss(css[i]) <==> exists k :: 0 <= k < |sheets[i]| && IsCssRule(sheets[i][k])
    {
      CheckCssOfLintedSheet(sheets[i], [], []);
      assert [] + RuleMessages(sheets[i]) + [] == RuleMessages(sheets[i]);
    }
  }

  /** A stylesheet declaring `-ms-touch-action` passes without any script. */
  lemma TouchActionPasses()
    ensures Passed(Website([CssAsset(Report(RuleMessages(["-ms-touch-action"])))], []))
  {
    var w := Website([CssAsset(Report(RuleMessages(["-ms-touch-action"])))], []);
    assert IsCssRule(["-ms-touch-action"][0]);
    assert CheckCss(w.css[0]);
  }

  /** A stylesheet without listed properties falls back to the scripts. */
  lemma ScriptFallbackPasses()
    ensures Passed(Website([CssAsset(Report(RuleMessages(["color"])))], [JsAsset("MSPointerDown")]))
  {
    var w := Website([CssAsset(Report(RuleMessages(["color"])))], [JsAsset("MSPointerDown")]);
    LiteralDetected("MSPointer", "", "Down");
    assert "" + "MSPointer" + "Down" == "MSPointerDown";
    assert JsTouch(w.js[0].content);
  }
}
