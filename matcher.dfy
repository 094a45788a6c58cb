/**
 * Matchers: stateless predicates over a transaction description that also
 * derive the label of the group the description belongs to, an ordered set of
 * them with first-match-wins lookup, and the step that compiles declarative
 * matcher definitions into such a set (src/cashbook/matcher.go).
 *
 * A matcher holds only its immutable configuration, so `Match` and `Label` are
 * functions of (configuration, input).
 */
module Matcher {
  import opened Wrappers

  // ---------------------------------------------------------------------------
  // Normalisation: delete every character that is not an ASCII letter or a space
  // ---------------------------------------------------------------------------

  predicate IsNormalChar(c: char) {
    ('a' <= c <= 'z') || ('A' <= c <= 'Z') || c == ' '
  }

  predicate AllNormal(s: string) {
    forall i :: 0 <= i < |s| ==> IsNormalChar(s[i])
  }

  function Normalize(s: string): (r: string)
    ensures AllNormal(r)
    ensures |r| <= |s|
    ensures forall c :: c in r <==> c in s && IsNormalChar(c)
  {
    if s == [] then []
    else (if IsNormalChar(s[0]) then [s[0]] else []) + Normalize(s[1..])
  }

  /** `a` is obtained from `b` by deleting zero or more characters. */
  predicate IsSubsequence(a: string, b: string)
    decreases |b|
  {
    a == [] || (b != [] && ((a[0] == b[0] && IsSubsequence(a[1..], b[1..])) || IsSubsequence(a, b[1..])))
  }

  /** Normalisation only deletes: the surviving characters keep their order. */
  lemma {:induction false} NormalizeIsSubsequence(s: string)
    ensures IsSubsequence(Normalize(s), s)
  {
    if s != [] {
      NormalizeIsSubsequence(s[1..]);
      if IsNormalChar(s[0]) {
        assert Normalize(s) == [s[0]] + Normalize(s[1..]);
      } else {
        assert Normalize(s) == Normalize(s[1..]);
      }
    }
  }

  /** A string made only of letters and spaces is left as it is. */
  lemma {:induction false} NormalizeFixesNormal(s: string)
    requires AllNormal(s)
    ensures Normalize(s) == s
  {
    if s != [] {
      assert AllNormal(s[1..]) by {
        forall i | 0 <= i < |s[1..]| ensures IsNormalChar(s[1..][i]) {
          assert s[1..][i] == s[i + 1];
        }
      }
      NormalizeFixesNormal(s[1..]);
      assert IsNormalChar(s[0]);
      assert s == [s[0]] + s[1..];
    }
  }

  lemma NormalizeIdempotent(s: string)
    ensures Normalize(Normalize(s)) == Normalize(s)
  {
    NormalizeFixesNormal(Normalize(s));
  }

  /** Normalisation works character by character, so it distributes over concatenation. */
  lemma {:induction false} NormalizeAppend(a: string, b: string)
    ensures Normalize(a + b) == Normalize(a) + Normalize(b)
  {
    if a != [] {
      assert (a + b)[0] == a[0];
      assert (a + b)[1..] == a[1..] + b;
      NormalizeAppend(a[1..], b);
    } else {
      assert a + b == b;
    }
  }

  // ---------------------------------------------------------------------------
  // strings.TrimPrefix and strings.TrimSpace
  // ---------------------------------------------------------------------------

  function TrimPrefix(s: string, prefix: string): (r: string)
    ensures prefix <= s ==> prefix + r == s
    ensures !(prefix <= s) ==> r == s
  {
    if prefix <= s then s[|prefix|..] else s
  }

  /** White space as Go's unicode.IsSpace defines it. */
  predicate IsSpace(c: char) {
    c == '\t' || c == '\n' || c == '\U{000B}' || c == '\U{000C}' || c == '\r' || c == ' '
    || c == '\U{0085}' || c == '\U{00A0}' || c == '\U{1680}'
    || ('\U{2000}' <= c <= '\U{200A}')
    || c == '\U{2028}' || c == '\U{2029}' || c == '\U{202F}' || c == '\U{205F}' || c == '\U{3000}'
  }

  predicate AllSpaces(s: string) {
    forall i :: 0 <= i < |s| ==> IsSpace(s[i])
  }

  function TrimLeft(s: string): (r: string)
    ensures |r| <= |s| && r == s[|s| - |r|..]
    ensures AllSpaces(s[..|s| - |r|])
    ensures r != [] ==> !IsSpace(r[0])
  {
    if s != [] && IsSpace(s[0]) then TrimLeft(s[1..]) else s
  }

  function TrimRight(s: string): (r: string)
    ensures |r| <= |s| && r == s[..|r|]
    ensures AllSpaces(s[|r|..])
    ensures r != [] ==> !IsSpace(r[|r| - 1])
  {
    if s != [] && IsSpace(s[|s| - 1]) then TrimRight(s[..|s| - 1]) else s
  }

  /** Drops the leading and trailing white space and nothing else. */
  function TrimSpace(s: string): (r: string)
    ensures r != [] ==> !IsSpace(r[0]) && !IsSpace(r[|r| - 1])
    ensures exists i, j :: 0 <= i <= j <= |s| && r == s[i..j] && AllSpaces(s[..i]) && AllSpaces(s[j..])
  {
    var t := TrimLeft(s);
    var r := TrimRight(t);
    TrimBoth(s, t, r);
    r
  }

  /**
   * What TrimLeft and TrimRight promise, put together: the right trim of the
   * left trim is a slice of `s` with only white space cut on either side.
   */
  lemma TrimBoth(s: string, t: string, r: string)
    requires |t| <= |s| && t == s[|s| - |t|..] && AllSpaces(s[..|s| - |t|]) && (t != [] ==> !IsSpace(t[0]))
    requires |r| <= |t| && r == t[..|r|] && AllSpaces(t[|r|..]) && (r != [] ==> !IsSpace(r[|r| - 1]))
    ensures r != [] ==> !IsSpace(r[0]) && !IsSpace(r[|r| - 1])
    ensures exists i, j :: 0 <= i <= j <= |s| && r == s[i..j] && AllSpaces(s[..i]) && AllSpaces(s[j..])
  {
    var i := |s| - |t|;
    var j := i + |r|;
    if r != [] {
      assert r[0] == t[0];
    }
    assert r == s[i..j];
    var tail := t[|r|..];
    assert tail == s[j..];
    assert AllSpaces(s[j..]);
  }

  // ---------------------------------------------------------------------------
  // The prefix matcher
  // ---------------------------------------------------------------------------

  /**
   * Configuration of a StartsWithMatcher. `groupType` is the classification
   * tag (the matcher's GetGroupType), `matchThis` the prefix compared against
   * the normalised input, `groupLabel` an optional label override.
   */
  datatype StartsWithMatcher = StartsWithMatcher(
    groupType: string,
    matchThis: string,
    groupLabel: string,
    dontStripNumbers: bool)

  /** The matcher fires when the normalised input starts with its pattern. */
  predicate Match(m: StartsWithMatcher, input: string)
    ensures Match(m, input) ==> |m.matchThis| <= |input|
  {
    m.matchThis <= Normalize(input)
  }

  /**
   * The group label for `input`: the override if one is configured; otherwise
   * the (by default normalised) input with the pattern taken off its front and
   * surrounding white space removed, and the pattern itself when that is empty.
   */
  function Label(m: StartsWithMatcher, input: string): (r: string)
    ensures m.groupLabel != "" ==> r == m.groupLabel
    ensures r == "" ==> m.groupLabel == "" && m.matchThis == ""
    ensures m.groupLabel == "" && !m.dontStripNumbers ==>
              r == m.matchThis || (r != "" && AllNormal(r) && r[0] != ' ' && r[|r| - 1] != ' ')
  {
    if m.groupLabel != "" then m.groupLabel
    else
      var base := if !m.dontStripNumbers then Normalize(input) else input;
      var trimmed := TrimSpace(TrimPrefix(base, m.matchThis));
      if trimmed == "" then m.matchThis
      else
        SliceOfNormal(TrimPrefix(base, m.matchThis), trimmed);
        trimmed
  }

  lemma SliceOfNormal(s: string, r: string)
    requires exists i, j :: 0 <= i <= j <= |s| && r == s[i..j]
    ensures AllNormal(s) ==> AllNormal(r)
  {
    var i, j :| 0 <= i <= j <= |s| && r == s[i..j];
    if AllNormal(s) {
      forall k | 0 <= k < |r| ensures IsNormalChar(r[k]) {
        assert r[k] == s[i + k];
      }
    }
  }

  /**
   * Whether a matcher fires depends only on the letters and spaces of the
   * input: digits and punctuation are invisible to it.
   */
  lemma MatchSeesOnlyNormalized(m: StartsWithMatcher, input: string)
    ensures Match(m, input) <==> Match(m, Normalize(input))
  {
    NormalizeIdempotent(input);
  }

  /** Appending text to a matching description keeps it matching. */
  lemma MatchExtends(m: StartsWithMatcher, input: string, more: string)
    requires Match(m, input)
    ensures Match(m, input + more)
  {
    NormalizeAppend(input, more);
  }

  /**
   * Only a pattern made of letters and spaces can ever match, since it is
   * compared with normalised text: a pattern such as "7-ELEVEN" never fires.
   */
  lemma MatchingPatternIsNormal(m: StartsWithMatcher, input: string)
    requires Match(m, input)
    ensures AllNormal(m.matchThis)
  {
    forall k | 0 <= k < |m.matchThis| ensures IsNormalChar(m.matchThis[k]) {
      assert m.matchThis[k] == Normalize(input)[k];
    }
  }

  /**
   * With stripping on and no override, a matching description's label is the
   * normalised text after the pattern with its surrounding spaces removed, or
   * the pattern when nothing but spaces follows it.
   */
  lemma LabelIsRemainderOfMatch(m: StartsWithMatcher, input: string)
    requires m.groupLabel == "" && !m.dontStripNumbers && Match(m, input)
    ensures var rest := Normalize(input)[|m.matchThis|..];
            var l := Label(m, input);
            if AllSpaces(rest) then l == m.matchThis
            else l == TrimSpace(rest) && l != [] && !IsSpace(l[0]) && !IsSpace(l[|l| - 1])
                 && exists i, j :: 0 <= i <= j <= |rest| && l == rest[i..j]
                      && AllSpaces(rest[..i]) && AllSpaces(rest[j..])
  {
    var n := Normalize(input);
    var rest := n[|m.matchThis|..];
    assert TrimPrefix(n, m.matchThis) == rest;
    TrimSpaceEmptyIffAllSpaces(rest);
  }

  /**
   * With stripping off and no override, the pattern is taken off the RAW
   * description, while Match compared it with the normalised one: a
   * description that matches only once its digits and punctuation are gone
   * keeps the pattern in its label.
   */
  lemma LabelWithoutStripping(m: StartsWithMatcher, input: string)
    requires m.groupLabel == "" && m.dontStripNumbers
    ensures var rest := if m.matchThis <= input then input[|m.matchThis|..] else input;
            Label(m, input) == if TrimSpace(rest) == "" then m.matchThis else TrimSpace(rest)
  {
    var rest := if m.matchThis <= input then input[|m.matchThis|..] else input;
    assert TrimPrefix(input, m.matchThis) == rest;
  }

  /** A string with no white space at either end is its own TrimSpace. */
  lemma TrimSpaceOfTrimmed(w: string)
    requires w != [] && !IsSpace(w[0]) && !IsSpace(w[|w| - 1])
    ensures TrimSpace(w) == w
  {
    assert TrimLeft(w) == w;
    assert w[..|w|] == w;
    assert TrimRight(w) == w;
  }

  /** TrimSpace leaves nothing exactly when the string is all white space. */
  lemma TrimSpaceEmptyIffAllSpaces(s: string)
    ensures TrimSpace(s) == [] <==> AllSpaces(s)
  {
    var r := TrimSpace(s);
    var i, j :| 0 <= i <= j <= |s| && r == s[i..j] && AllSpaces(s[..i]) && AllSpaces(s[j..]);
    if r == [] {
      forall k | 0 <= k < |s| ensures IsSpace(s[k]) {
        if k < i {
          assert s[k] == s[..i][k];
        } else {
          assert s[k] == s[j..][k - j];
        }
      }
    } else {
      assert r[0] == s[i];
    }
  }

  // ---------------------------------------------------------------------------
  // MatchSet: first match wins, in declaration order
  // ---------------------------------------------------------------------------

  /** A compiled set; `None` is the nil entry left for an unknown matcher kind. */
  type MatchSet = seq<Option<StartsWithMatcher>>

  /**
   * The outcome of a lookup: the lowest-index matcher that fires, no matcher, or
   * the nil entry the scan reached first (calling Match on it panics in Go).
   */
  datatype FindResult = Found(index: nat, matcher: StartsWithMatcher) | NotFound | NilMatcher(index: nat)

  /** Every entry in [lo, hi) is a real matcher that does not fire on `input`. */
  predicate AllMiss(matchers: MatchSet, input: string, lo: nat, hi: nat)
    requires lo <= hi <= |matchers|
  {
    forall j :: lo <= j < hi ==> matchers[j].Some? && !Match(matchers[j].value, input)
  }

  /** The scan started at position `i`. */
  function FirstMatchFrom(matchers: MatchSet, input: string, i: nat): (r: FindResult)
    requires i <= |matchers|
    ensures r.Found? ==> i <= r.index < |matchers| && matchers[r.index] == Some(r.matcher)
                         && Match(r.matcher, input) && AllMiss(matchers, input, i, r.index)
    ensures r.NilMatcher? ==> i <= r.index < |matchers| && matchers[r.index] == None
                              && AllMiss(matchers, input, i, r.index)
    ensures r.NotFound? ==> AllMiss(matchers, input, i, |matchers|)
    decreases |matchers| - i
  {
    if i == |matchers| then NotFound
    else match matchers[i]
      case None => NilMatcher(i)
      case Some(m) => if Match(m, input) then Found(i, m) else FirstMatchFrom(matchers, input, i + 1)
  }

  /** MatchSet.FindMatcher's result: the scan from the first entry. */
  function FirstMatch(matchers: MatchSet, input: string): (r: FindResult)
    ensures r.Found? ==> r.index < |matchers| && matchers[r.index] == Some(r.matcher)
                         && Match(r.matcher, input) && AllMiss(matchers, input, 0, r.index)
    ensures r.NilMatcher? ==> r.index < |matchers| && matchers[r.index] == None
                              && AllMiss(matchers, input, 0, r.index)
    ensures r.NotFound? ==> AllMiss(matchers, input, 0, |matchers|)
  {
    FirstMatchFrom(matchers, input, 0)
  }

  /** A set without nil entries never panics: the lookup finds a matcher or none. */
  lemma NoNilNoPanic(matchers: MatchSet, input: string)
    requires forall i :: 0 <= i < |matchers| ==> matchers[i].Some?
    ensures !FirstMatch(matchers, input).NilMatcher?
  {
  }

  /**
   * MatchSet.FindMatcher: a linear scan that stops at the first matcher whose
   * Match holds (or at a nil entry).
   */
  method FindMatcher(matchers: MatchSet, input: string) returns (r: FindResult)
    ensures r == FirstMatch(matchers, input)
    ensures r.Found? ==> r.index < |matchers| && matchers[r.index] == Some(r.matcher)
                         && Match(r.matcher, input) && AllMiss(matchers, input, 0, r.index)
    ensures r.NilMatcher? ==> r.index < |matchers| && matchers[r.index] == None
                              && AllMiss(matchers, input, 0, r.index)
    ensures r.NotFound? ==> AllMiss(matchers, input, 0, |matchers|)
  {
    r := NotFound;
    var i := 0;
    while i < |matchers|
      invariant 0 <= i <= |matchers|
      invariant AllMiss(matchers, input, 0, i)
      invariant FirstMatchFrom(matchers, input, i) == FirstMatch(matchers, input)
    {
      match matchers[i]
      case None =>
        r := NilMatcher(i);
        break;
      case Some(m) =>
        if Match(m, input) {
          r := Found(i, m);
          break;
        }
      i := i + 1;
    }
  }

  // ---------------------------------------------------------------------------
  // Compiling matcher definitions
  // ---------------------------------------------------------------------------

  /** A declarative matcher definition, as read from the configuration file. */
  datatype MatcherDef = MatcherDef(
    typeName: string,
    groupType: string,
    matching: string,
    groupLabel: string,
    dontStripNumbers: bool)

  const STARTS_WITH_MATCHER: string := "StartsWithMatcher"

  /**
   * The compile loop of match_set_from_file: a set as long as the definitions,
   * with entry i built from definition i when it names the one known kind and
   * left nil otherwise.
   */
  method CompileMatchSet(defs: seq<MatcherDef>) returns (matchers: MatchSet)
    ensures |matchers| == |defs|
    ensures forall i :: 0 <= i < |defs| ==> (matchers[i].Some? <==> defs[i].typeName == STARTS_WITH_MATCHER)
    ensures forall i :: 0 <= i < |defs| && matchers[i].Some? ==>
              matchers[i].value == StartsWithMatcher(defs[i].groupType, defs[i].matching,
                                                     defs[i].groupLabel, defs[i].dontStripNumbers)
  {
    var entries := new Option<StartsWithMatcher>[|defs|](_ => None);
    for i := 0 to |defs|
      invariant forall k :: 0 <= k < i ==> (entries[k].Some? <==> defs[k].typeName == STARTS_WITH_MATCHER)
      invariant forall k :: 0 <= k < i && entries[k].Some? ==>
                  entries[k].value == StartsWithMatcher(defs[k].groupType, defs[k].matching,
                                                        defs[k].groupLabel, defs[k].dontStripNumbers)
      invariant forall k :: i <= k < entries.Length ==> entries[k] == None
    {
      var def := defs[i];
      if def.typeName == STARTS_WITH_MATCHER {
        entries[i] := Some(StartsWithMatcher(def.groupType, def.matching, def.groupLabel, def.dontStripNumbers));
      }
    }
    matchers := entries[..];
  }
}

/** Worked examples of the matcher on a marketplace description, evaluated on the model. */
module MatcherExamples {
  import opened Wrappers
  import opened Matcher

  const AMAZON: StartsWithMatcher := StartsWithMatcher("Retail", "AMAZON", "", false)
  const MARKETPLACE: StartsWithMatcher := StartsWithMatcher("Retail", "AMAZON MKTPL", "Marketplace", false)
  const DESCRIPTION: string := "AMAZON MKTPL 123"

  /** Digits and punctuation go, the pattern comes off the front, the spaces around the rest go. */
  lemma AmazonExample(m: StartsWithMatcher, input: string)
    requires m == AMAZON && input == DESCRIPTION
    ensures Match(m, input)
    ensures Label(m, input) == "MKTPL"
  {
    var normalized, rest := "AMAZON MKTPL ", " MKTPL ";
    NormalizeExample(input);
    PrefixExample(m, normalized, rest);
    TrimExample(rest);
    LabelFromSteps(m, input, normalized, rest);
  }

  const ELEVEN: StartsWithMatcher := StartsWithMatcher("Retail", "ELEVEN", "", true)

  /**
   * A matcher that keeps digits fires on "7-ELEVEN", whose normalised form
   * starts with its pattern, but the raw text does not: the label keeps it.
   */
  lemma ElevenExample(m: StartsWithMatcher, input: string)
    requires m == ELEVEN && input == "7-ELEVEN"
    ensures Match(m, input)
    ensures Label(m, input) == "7-ELEVEN"
  {
    ElevenNormalizes(input);
    ElevenLabel(m, input);
  }

  lemma ElevenLabel(m: StartsWithMatcher, input: string)
    requires m == ELEVEN && input == "7-ELEVEN"
    ensures Label(m, input) == input
  {
    assert input[0] == '7' && m.matchThis[0] == 'E';
    assert input[|input| - 1] == 'N';
    LabelKeepsUnprefixed(m, input);
  }

  /** Without stripping, a description not starting with the pattern is its own label. */
  lemma LabelKeepsUnprefixed(m: StartsWithMatcher, input: string)
    requires m.groupLabel == "" && m.dontStripNumbers && !(m.matchThis <= input)
    requires input != [] && !IsSpace(input[0]) && !IsSpace(input[|input| - 1])
    ensures Label(m, input) == input
  {
    TrimSpaceOfTrimmed(input);
    LabelWithoutStripping(m, input);
  }

  lemma ElevenNormalizes(input: string)
    requires input == "7-ELEVEN"
    ensures Normalize(input) == "ELEVEN"
  {
    var head, tail := "7-", "ELEVEN";
    assert input == head + tail;
    assert !IsNormalChar(head[0]) && !IsNormalChar(head[1]);
    NoLettersNormalizeAway(head);
    assert AllNormal(tail);
    NormalizeDropsHead(head, tail);
  }

  lemma NoLettersNormalizeAway(s: string)
    requires forall i :: 0 <= i < |s| ==> !IsNormalChar(s[i])
    ensures Normalize(s) == []
  {
  }

  lemma NormalizeDropsHead(a: string, b: string)
    requires Normalize(a) == [] && AllNormal(b)
    ensures Normalize(a + b) == b
  {
    NormalizeAppend(a, b);
    NormalizeFixesNormal(b);
    assert [] + b == b;
  }

  /** Two overlapping matchers: the one declared first wins. */
  lemma FirstDeclaredWins()
    ensures FirstMatch([Some(AMAZON), Some(MARKETPLACE)], DESCRIPTION) == Found(0, AMAZON)
  {
    AmazonExample(AMAZON, DESCRIPTION);
  }

  /** Label of a stripping matcher without override, computed step by step. */
  lemma LabelFromSteps(m: StartsWithMatcher, input: string, normalized: string, rest: string)
    requires m.groupLabel == "" && !m.dontStripNumbers
    requires Normalize(input) == normalized && normalized == m.matchThis + rest && TrimSpace(rest) != ""
    ensures Match(m, input)
    ensures Label(m, input) == TrimSpace(rest)
  {
    assert TrimPrefix(normalized, m.matchThis) == rest;
  }

  lemma PrefixExample(m: StartsWithMatcher, normalized: string, rest: string)
    requires m == AMAZON && normalized == "AMAZON MKTPL " && rest == " MKTPL "
    ensures normalized == m.matchThis + rest
  {
  }

  lemma NormalizeExample(input: string)
    requires input == "AMAZON MKTPL 123"
    ensures Normalize(input) == "AMAZON MKTPL "
  {
    NormalizeExampleSplit();
    assert input == "AMAZON MKTPL " + "123";
  }

  lemma NormalizeExampleSplit()
    ensures Normalize("AMAZON MKTPL " + "123") == "AMAZON MKTPL "
  {
    DigitsNormalizeAway();
    NormalizeDropsTail("AMAZON MKTPL ", "123");
  }

  lemma NormalizeDropsTail(a: string, b: string)
    requires AllNormal(a) && Normalize(b) == []
    ensures Normalize(a + b) == a
  {
    NormalizeAppend(a, b);
    NormalizeFixesNormal(a);
    assert a + [] == a;
  }

  lemma DigitsNormalizeAway()
    ensures Normalize("123") == []
  {
    assert Normalize("3") == [];
    assert Normalize("23") == [];
  }

  lemma TrimExample(rest: string)
    requires rest == " MKTPL "
    ensures TrimSpace(rest) == "MKTPL"
  {
    var w := "MKTPL";
    assert rest == " " + w + " ";
    assert !IsSpace(w[0]) && !IsSpace(w[|w| - 1]);
    TrimOfPadded(w);
  }

  /** A word with one space on each side trims to the word. */
  lemma TrimOfPadded(w: string)
    requires w != [] && !IsSpace(w[0]) && !IsSpace(w[|w| - 1])
    ensures TrimSpace(" " + w + " ") == w
  {
    var s := " " + w + " ";
    var t := w + " ";
    assert s[1..] == t && t[0] == w[0];
    assert TrimLeft(s) == t;
    assert t[..|w|] == w;
    assert TrimRight(t) == w;
  }
}
