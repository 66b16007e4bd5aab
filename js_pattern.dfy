/**
 * The fixed regular expressions that the touch check runs over JavaScript
 * source. Each of them is a plain run of characters, with at most one `.`
 * wildcard, so it is modelled as a sequence of atoms, and `RegExp.test` as a
 * search for a position where every atom matches.
 */
module JsPattern {

  /** One position of a pattern: a literal character, or the regex `.`. */
  datatype Atom = Char(c: char) | AnyChar

  type Pattern = seq<Atom>

  /** The pattern that matches exactly the characters of `s`, case-sensitively. */
  function Literal(s: string): Pattern {
    seq(|s|, i requires 0 <= i < |s| => Char(s[i]))
  }

  /** The characters a JavaScript `.` (without the `s` flag) does not match. */
  predicate IsLineTerminator(c: char) {
    c == '\n' || c == '\r' || c == '\U{2028}' || c == '\U{2029}'
  }

  /**
   * The number of UTF-16 code units that encode `c`. A regex without the `u`
   * flag runs over code units, so its `.` consumes one unit, never a whole
   * character outside the Basic Multilingual Plane.
   */
  function Utf16Units(c: char): nat {
    if c as int < 0x1_0000 then 1 else 2
  }

  /**
   * One atom against one character. For `AnyChar` the character must be a
   * single code unit: every pattern here follows its `.` by an ASCII letter,
   * which can never match the second half of a surrogate pair, so on
   * characters this is exactly what the regex does on code units.
   */
  predicate AtomMatches(a: Atom, c: char) {
    match a
    case Char(d) => c == d
    case AnyChar => Utf16Units(c) == 1 && !IsLineTerminator(c)
  }

  /** `p` matches `s` starting at offset `k`. */
  predicate MatchesAt(p: Pattern, s: string, k: nat)
    requires k + |p| <= |s|
  {
    forall j :: 0 <= j < |p| ==> AtomMatches(p[j], s[k + j])
  }

  /** `p` occurs somewhere in `s`: what `RegExp.test` answers for a fresh regex. */
  ghost predicate Occurs(p: Pattern, s: string) {
    exists k: nat :: k + |p| <= |s| && MatchesAt(p, s, k)
  }

  /** Searches `s` for `p` at every offset from `k` on. */
  function SearchFrom(p: Pattern, s: string, k: nat): (found: bool)
    ensures found <==> exists k': nat :: k <= k' && k' + |p| <= |s| && MatchesAt(p, s, k')
    decreases |s| - k
  {
    if k + |p| > |s| then
      false
    else if MatchesAt(p, s, k) then
      true
    else
      SearchFrom(p, s, k + 1)
  }

  /** The regex test: true iff the pattern occurs somewhere in the text. */
  function Test(p: Pattern, s: string): (found: bool)
    ensures found <==> Occurs(p, s)
  {
    SearchFrom(p, s, 0)
  }

  /** Some pattern of `pats` occurs in `s`. */
  ghost predicate AnyOccurs(pats: seq<Pattern>, s: string) {
    exists i :: 0 <= i < |pats| && Occurs(pats[i], s)
  }

  /**
   * Whether some pattern of a list occurs does not depend on the order in
   * which the list is tried: only the multiset of patterns matters.
   */
  lemma AnyOccursPermutation(pats: seq<Pattern>, pats': seq<Pattern>, s: string)
    requires multiset(pats) == multiset(pats')
    ensures AnyOccurs(pats, s) <==> AnyOccurs(pats', s)
  {
    if AnyOccurs(pats, s) {
      var i :| 0 <= i < |pats| && Occurs(pats[i], s);
      assert pats[i] in multiset(pats');
      var i' :| 0 <= i' < |pats'| && pats'[i'] == pats[i];
    }
    if AnyOccurs(pats', s) {
      var i' :| 0 <= i' < |pats'| && Occurs(pats'[i'], s);
      assert pats'[i'] in multiset(pats);
      var i :| 0 <= i < |pats| && pats[i] == pats'[i'];
    }
  }

  /** A pattern of literal characters matches only the very same characters: case counts. */
  lemma LiteralMatchesExactly(lit: string, s: string, k: nat)
    requires k + |lit| <= |s|
    ensures MatchesAt(Literal(lit), s, k) <==> s[k..k + |lit|] == lit
  {
    var p := Literal(lit);
    if MatchesAt(p, s, k) {
      forall j | 0 <= j < |lit| ensures s[k..k + |lit|][j] == lit[j] {
        assert AtomMatches(p[j], s[k + j]);
      }
    }
    if s[k..k + |lit|] == lit {
      forall j | 0 <= j < |p| ensures AtomMatches(p[j], s[k + j]) {
        assert s[k..k + |lit|][j] == s[k + j];
      }
    }
  }

  /** A concatenated pattern matches iff its first part matches and its second part matches right after. */
  lemma MatchesAtConcat(p: Pattern, q: Pattern, s: string, k: nat)
    requires k + |p| + |q| <= |s|
    ensures MatchesAt(p + q, s, k) <==> MatchesAt(p, s, k) && MatchesAt(q, s, k + |p|)
  {
    if MatchesAt(p, s, k) && MatchesAt(q, s, k + |p|) {
      forall j | 0 <= j < |p + q| ensures AtomMatches((p + q)[j], s[k + j]) {
        if j >= |p| {
          assert AtomMatches(q[j - |p|], s[k + |p| + (j - |p|)]);
        }
      }
    }
    if MatchesAt(p + q, s, k) {
      forall j | 0 <= j < |p| ensures AtomMatches(p[j], s[k + j]) {
        assert AtomMatches((p + q)[j], s[k + j]);
      }
      forall j | 0 <= j < |q| ensures AtomMatches(q[j], s[k + |p| + j]) {
        assert AtomMatches((p + q)[|p| + j], s[k + (|p| + j)]);
      }
    }
  }

  /** A pattern occurring in a text occurs in every text containing it. */
  lemma OccursExtends(p: Pattern, pre: string, t: string, post: string)
    requires Occurs(p, t)
    ensures Occurs(p, pre + t + post)
  {
    var k: nat :| k + |p| <= |t| && MatchesAt(p, t, k);
    var s := pre + t + post;
    forall j | 0 <= j < |p| ensures AtomMatches(p[j], s[|pre| + k + j]) {
      assert s[|pre| + k + j] == t[k + j];
    }
    assert MatchesAt(p, s, |pre| + k);
  }

  /** What the wildcard matches: one code unit that does not end a line. */
  lemma WildcardExamples()
    ensures AtomMatches(AnyChar, 'X') && AtomMatches(AnyChar, '.') && AtomMatches(AnyChar, '\t')
    ensures !AtomMatches(AnyChar, '\n') && !AtomMatches(AnyChar, '\r')
    ensures !AtomMatches(AnyChar, '\U{2028}') && !AtomMatches(AnyChar, '\U{2029}')
    ensures !AtomMatches(AnyChar, '\U{1F600}')
    ensures AtomMatches(Char('g'), 'g') && !AtomMatches(Char('g'), 'G')
  {
  }
}
