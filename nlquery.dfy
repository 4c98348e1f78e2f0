/**
 * The natural-language translator: a fixed sequence of keyword and pattern rules that turn a
 * free-text query into a filter set. Each rule may set one field; a later rule overwrites a field
 * an earlier one set.
 */
module NlQuery {
  import opened Wrappers
  import opened Text
  import opened Filters

  // ---------------------------------------------------------------------------------------------
  // The four regular expressions, as matchers at one start position.
  //
  // `\d`, `\s` and the letters of the fixed phrases are pairwise disjoint, so every greedy
  // quantifier in these patterns has exactly one way to go on. The one real choice is the
  // alternation `(?:the letter |)`: at "containing the letter x" both branches match (capturing
  // 'x' and 't'), and the engine takes the first branch that matches, as `ContainingAt` does.
  // ---------------------------------------------------------------------------------------------

  /** A non-empty run of decimal digits: what `(\d+)` captures. */
  predicate IsNumeral(g: string) {
    g != [] && forall k :: 0 <= k < |g| ==> IsDigit(g[k])
  }

  /**
   * `phrase(\d+)` matches at `i` with a capture of `d` digits: the phrase, then `d` digits that
   * are not followed by another digit (the quantifier is greedy).
   */
  predicate NumberMatch(phrase: string, s: string, i: nat, d: nat) {
    var j := i + |phrase|;
    && OccursAt(s, i, phrase)
    && 0 < d && j + d <= |s|
    && IsNumeral(s[j..j + d])
    && (j + d == |s| || !IsDigit(s[j + d]))
  }

  /** `s.slice(i).match(/^phrase(\d+)/)`: the captured digits, if the pattern matches at `i`. */
  function NumberAfter(phrase: string, s: string, i: nat): (r: Option<string>)
    requires i <= |s|
    ensures r.Some? ==> IsNumeral(r.value)
  {
    if OccursAt(s, i, phrase) then
      var j := i + |phrase|;
      var n := DigitPrefixLength(s[j..]);
      if n > 0 then
        assert forall k :: 0 <= k < n ==> s[j..j + n][k] == s[j..][k];
        Some(s[j..j + n])
      else None
    else None
  }

  /** The number matcher finds a match exactly when the pattern matches, and captures its digits. */
  lemma NumberAfterMatches(phrase: string, s: string, i: nat)
    requires i <= |s|
    ensures NumberAfter(phrase, s, i).Some? <==> exists d: nat :: NumberMatch(phrase, s, i, d)
    ensures forall d: nat ::
      NumberMatch(phrase, s, i, d) ==> NumberAfter(phrase, s, i) == Some(s[i + |phrase|..i + |phrase| + d])
  {
    if OccursAt(s, i, phrase) {
      var j := i + |phrase|;
      var n := DigitPrefixLength(s[j..]);
      if n > 0 {
        assert forall k :: 0 <= k < n ==> s[j..j + n][k] == s[j..][k];
        assert j + n == |s| || s[j + n] == s[j..][n];
        assert NumberMatch(phrase, s, i, n);
      }
      forall d: nat | NumberMatch(phrase, s, i, d)
        ensures d == n
      {
        if d < n {
          assert false;
        } else if d > n {
          assert false;
        }
      }
    }
  }

  /**
   * `(\d+)\s+words?` matches at `i` with `d` digits and the word starting at `k`: digits, at least
   * one whitespace character, then "word" (the optional "s" never decides whether it matches).
   */
  predicate WordsMatch(s: string, i: nat, d: nat, k: nat) {
    && 0 < d && i + d < k
    && OccursAt(s, k, "word")
    && IsNumeral(s[i..i + d])
    && forall m :: i + d <= m < k ==> IsWhitespace(s[m])
  }

  /** The word-count matcher at `i`: the digits in front of "word", if the pattern matches there. */
  function WordsAt(s: string, i: nat): (r: Option<string>)
    requires i <= |s|
    ensures r.Some? ==> IsNumeral(r.value)
  {
    var t := s[i..];
    var d := DigitPrefixLength(t);
    if d == 0 then None
    else
      var w := WhitespacePrefixLength(t[d..]);
      if w > 0 && OccursAt(s, i + d + w, "word") then
        assert forall k :: 0 <= k < d ==> t[..d][k] == t[k];
        Some(t[..d])
      else None
  }

  /** The word-count matcher finds a match exactly when the pattern matches, and captures its digits. */
  lemma WordsAtMatches(s: string, i: nat)
    requires i <= |s|
    ensures WordsAt(s, i).Some? <==> exists d: nat, k: nat :: WordsMatch(s, i, d, k)
    ensures forall d: nat, k: nat :: WordsMatch(s, i, d, k) ==> WordsAt(s, i) == Some(s[i..i + d])
  {
    if WordsAt(s, i).Some? {
      WordsAtIsMatch(s, i);
    }
    forall d: nat, k: nat | WordsMatch(s, i, d, k)
      ensures WordsAt(s, i) == Some(s[i..i + d])
    {
      WordsMatchIsFound(s, i, d, k);
    }
  }

  /** What the word-count matcher finds is a match of the pattern. */
  lemma WordsAtIsMatch(s: string, i: nat)
    requires i <= |s| && WordsAt(s, i).Some?
    ensures WordsMatch(s, i, |WordsAt(s, i).value|, i + |WordsAt(s, i).value| + WhitespacePrefixLength(s[i + |WordsAt(s, i).value|..]))
  {
    var t := s[i..];
    var d0 := DigitPrefixLength(t);
    var w0 := WhitespacePrefixLength(t[d0..]);
    var k := i + d0 + w0;
    assert WordsAt(s, i) == Some(t[..d0]);
    assert t[d0..] == s[i + d0..];
    assert 0 < d0 && i + d0 < k;
    assert OccursAt(s, k, "word");
    assert IsNumeral(s[i..i + d0]) by {
      assert s[i..i + d0] == t[..d0];
    }
    forall m | i + d0 <= m < k
      ensures IsWhitespace(s[m])
    {
      assert s[m] == t[d0..][m - i - d0];
    }
    assert WordsMatch(s, i, d0, k);
    assert |WordsAt(s, i).value| == d0;
    assert WhitespacePrefixLength(s[i + |WordsAt(s, i).value|..]) == w0;
  }

  /** Every match of the pattern at `i` is the one the word-count matcher finds. */
  lemma WordsMatchIsFound(s: string, i: nat, d: nat, k: nat)
    requires WordsMatch(s, i, d, k)
    ensures WordsAt(s, i) == Some(s[i..i + d])
  {
    var t := s[i..];
    var d0 := DigitPrefixLength(t);
    // the digits end where the whitespace starts
    assert IsWhitespace(s[i + d]);
    if d < d0 {
      DigitIsNotWhitespace(t[d]);
      assert false;
    } else if d > d0 {
      assert false;
    }
    // and the whitespace ends where "word" starts
    var u := t[d0..];
    var w0 := WhitespacePrefixLength(u);
    assert s[k] == 'w' by { assert s[k..k + 4][0] == s[k]; }
    if w0 < k - i - d0 {
      assert false;
    } else if w0 > k - i - d0 {
      assert false;
    }
    assert t[..d0] == s[i..i + d];
  }

  /**
   * `containing (?:the letter |)([a-z])` at `i`: the alternative "the letter " is tried first; if
   * it fails, the empty alternative is tried and the letter follows "containing " directly.
   */
  function ContainingAt(s: string, i: nat): (r: Option<string>)
    requires i <= |s|
    ensures r.Some? ==> |r.value| == 1 && IsLowerLetter(r.value[0])
  {
    if OccursAt(s, i, "containing the letter ") && i + 22 < |s| && IsLowerLetter(s[i + 22]) then
      Some([s[i + 22]])
    else if OccursAt(s, i, "containing ") && i + 11 < |s| && IsLowerLetter(s[i + 11]) then
      Some([s[i + 11]])
    else None
  }

  /**
   * The containing matcher succeeds exactly when a lower-case letter follows "containing ", and
   * then captures the letter after "the letter " when there is one.
   */
  lemma ContainingAtMatches(s: string, i: nat)
    requires i <= |s|
    ensures ContainingAt(s, i).Some? <==>
      OccursAt(s, i, "containing ") && i + 11 < |s| && IsLowerLetter(s[i + 11])
    ensures OccursAt(s, i, "containing the letter ") && i + 22 < |s| && IsLowerLetter(s[i + 22]) ==>
      ContainingAt(s, i) == Some([s[i + 22]])
    ensures ContainingAt(s, i).Some? && !(OccursAt(s, i, "containing the letter ") && i + 22 < |s| && IsLowerLetter(s[i + 22])) ==>
      ContainingAt(s, i) == Some([s[i + 11]])
  {
    if OccursAt(s, i, "containing the letter ") && i + 22 < |s| {
      assert s[i..i + 11] == s[i..i + 22][..11];
      assert s[i + 11] == s[i..i + 22][11];
      assert "containing the letter "[..11] == "containing ";
    }
  }

  /** The four patterns of the translator. */
  datatype Pattern = WordsPattern | LongerThanPattern | ShorterThanPattern | ContainingPattern

  /** The matcher of `p` at start position `i`. */
  function MatchAt(p: Pattern, s: string, i: nat): (r: Option<string>)
    requires i <= |s|
    ensures r.Some? && p != ContainingPattern ==> IsNumeral(r.value)
    ensures r.Some? && p == ContainingPattern ==> |r.value| == 1 && IsLowerLetter(r.value[0])
  {
    match p
    case WordsPattern => WordsAt(s, i)
    case LongerThanPattern => NumberAfter("longer than ", s, i)
    case ShorterThanPattern => NumberAfter("shorter than ", s, i)
    case ContainingPattern => ContainingAt(s, i)
  }

  /** The fixed word every match of `p` contains. */
  function Keyword(p: Pattern): string {
    match p
    case WordsPattern => "word"
    case LongerThanPattern => "longer than "
    case ShorterThanPattern => "shorter than "
    case ContainingPattern => "containing "
  }

  /** A pattern matches only where its fixed word occurs. */
  lemma MatchNeedsKeyword(p: Pattern, s: string, i: nat)
    requires i <= |s| && MatchAt(p, s, i).Some?
    ensures Contains(s, Keyword(p))
  {
    match p
    case WordsPattern => WordsNeedWord(s, i);
    case LongerThanPattern => NumberNeedsPhrase("longer than ", s, i);
    case ShorterThanPattern => NumberNeedsPhrase("shorter than ", s, i);
    case ContainingPattern => ContainingNeedsPhrase(s, i);
  }

  lemma WordsNeedWord(s: string, i: nat)
    requires i <= |s| && WordsAt(s, i).Some?
    ensures Contains(s, "word")
  {
    WordsAtMatches(s, i);
    var d: nat, k: nat :| WordsMatch(s, i, d, k);
    ContainsIffOccurs(s, "word");
  }

  lemma NumberNeedsPhrase(phrase: string, s: string, i: nat)
    requires i <= |s| && NumberAfter(phrase, s, i).Some?
    ensures Contains(s, phrase)
  {
    ContainsIffOccurs(s, phrase);
  }

  lemma ContainingNeedsPhrase(s: string, i: nat)
    requires i <= |s| && ContainingAt(s, i).Some?
    ensures Contains(s, "containing ")
  {
    ContainingAtMatches(s, i);
    ContainsIffOccurs(s, "containing ");
  }

  /** The leftmost start position, from `from` on, at which `p` matches. */
  function FirstMatchFrom(p: Pattern, s: string, from: nat): (r: Option<nat>)
    requires from <= |s|
    ensures r.Some? ==> from <= r.value <= |s| && MatchAt(p, s, r.value).Some?
    ensures r.Some? ==> forall j :: from <= j < r.value ==> MatchAt(p, s, j).None?
    ensures r.None? ==> forall j :: from <= j <= |s| ==> MatchAt(p, s, j).None?
    decreases |s| - from
  {
    if MatchAt(p, s, from).Some? then Some(from)
    else if from == |s| then None
    else FirstMatchFrom(p, s, from + 1)
  }

  /**
   * `lowerQuery.match(pattern)[1]`: the group captured by the leftmost match, or `None` when
   * `match` returns null.
   */
  function Capture(p: Pattern, s: string): (r: Option<string>)
    ensures r.Some? && p != ContainingPattern ==> IsNumeral(r.value)
    ensures r.Some? && p == ContainingPattern ==> |r.value| == 1 && IsLowerLetter(r.value[0])
  {
    match FirstMatchFrom(p, s, 0)
    case None => None
    case Some(i) => MatchAt(p, s, i)
  }

  /** The capture is that of the leftmost position at which the pattern matches. */
  lemma CaptureIsLeftmost(p: Pattern, s: string, i: nat)
    requires i <= |s| && MatchAt(p, s, i).Some?
    requires forall j :: 0 <= j < i ==> MatchAt(p, s, j).None?
    ensures Capture(p, s) == MatchAt(p, s, i)
  {
    var r := FirstMatchFrom(p, s, 0);
    assert r.Some?;
    if r.value < i {
      assert false;
    } else if r.value > i {
      assert false;
    }
  }

  /** No capture exactly when the pattern matches nowhere. */
  lemma CaptureNone(p: Pattern, s: string)
    ensures Capture(p, s).None? <==> forall j :: 0 <= j <= |s| ==> MatchAt(p, s, j).None?
  {
    var r := FirstMatchFrom(p, s, 0);
    if r.Some? {
      assert MatchAt(p, s, r.value).Some?;
    }
  }

  /** A pattern whose fixed word does not occur captures nothing. */
  lemma CaptureNeedsKeyword(p: Pattern, s: string)
    requires !Contains(s, Keyword(p))
    ensures Capture(p, s).None?
  {
    forall j | 0 <= j <= |s|
      ensures MatchAt(p, s, j).None?
    {
      if MatchAt(p, s, j).Some? {
        MatchNeedsKeyword(p, s, j);
      }
    }
    CaptureNone(p, s);
  }

  // ---------------------------------------------------------------------------------------------
  // The rules.
  // ---------------------------------------------------------------------------------------------

  /** The value of a captured digit run. */
  function Number(g: string): nat
    requires IsNumeral(g)
  {
    DecimalValue(g)
  }

  /** The value of a captured digit run is what `parseInt` makes of it. */
  lemma NumberIsParseInt(g: string)
    requires IsNumeral(g)
    ensures ParseInt(g) == Some(Number(g))
  {
    ParseIntOfDigits(g);
  }

  /** The number captured by a numeric pattern, if it matches. */
  function CapturedNumber(p: Pattern, s: string): Option<nat>
    requires p != ContainingPattern
  {
    match Capture(p, s)
    case None => None
    case Some(g) => Some(Number(g))
  }

  /** The letter captured by the containing pattern, if it matches. */
  function CapturedLetter(s: string): Option<char> {
    match Capture(ContainingPattern, s)
    case None => None
    case Some(g) => Some(g[0])
  }

  /** The seven rules, one per conditional assignment of the translator. */
  datatype Rule =
    | PalindromeRule
    | SingleWordRule
    | WordCountRule
    | LongerThanRule
    | ShorterThanRule
    | ContainingRule
    | FirstVowelRule

  /** The order in which the translator applies its rules. */
  const Rules: seq<Rule> :=
    [PalindromeRule, SingleWordRule, WordCountRule, LongerThanRule, ShorterThanRule, ContainingRule, FirstVowelRule]

  /**
   * The shape of every filter set the translator produces: the palindrome flag is never false,
   * a minimum length is at least 1, a maximum length at least -1, and a character is a
   * lower-case letter.
   */
  predicate TranslatorShape(f: FilterSet) {
    && f.isPalindrome != Some(false)
    && (f.minLength.Some? ==> f.minLength.value >= 1)
    && (f.maxLength.Some? ==> f.maxLength.value >= -1)
    && (f.containsCharacter.Some? ==> IsLowerLetter(f.containsCharacter.value))
  }

  /** One rule on the lower-cased query `q`: it sets its field when it fires, else changes nothing. */
  function Apply(rule: Rule, q: string, f: FilterSet): FilterSet {
    match rule
    case PalindromeRule =>
      if Contains(q, "palindrome") || Contains(q, "palindromic") then f.(isPalindrome := Some(true)) else f
    case SingleWordRule =>
      if Contains(q, "single word") then f.(wordCount := Some(1)) else f
    case WordCountRule =>
      (match CapturedNumber(WordsPattern, q)
       case Some(n) => f.(wordCount := Some(n))
       case None => f)
    case LongerThanRule =>
      (match CapturedNumber(LongerThanPattern, q)
       case Some(n) => f.(minLength := Some(n + 1))
       case None => f)
    case ShorterThanRule =>
      (match CapturedNumber(ShorterThanPattern, q)
       case Some(n) => f.(maxLength := Some(n - 1))
       case None => f)
    case ContainingRule =>
      (match CapturedLetter(q)
       case Some(c) => f.(containsCharacter := Some(c))
       case None => f)
    case FirstVowelRule =>
      if Contains(q, "first vowel") then f.(containsCharacter := Some('a')) else f
  }

  /** The rules applied one after the other, each to the result of the previous ones. */
  function RunRules(rules: seq<Rule>, q: string, f: FilterSet): (r: FilterSet)
    ensures TranslatorShape(f) ==> TranslatorShape(r)
  {
    if rules == [] then f
    else
      ApplyKeepsShape(rules[0], q, f);
      RunRules(rules[1..], q, Apply(rules[0], q, f))
  }

  /** A rule leaves every field but its own as it was. */
  lemma ApplyFrame(rule: Rule, q: string, f: FilterSet)
    ensures var r := Apply(rule, q, f);
      && (rule != PalindromeRule ==> r.isPalindrome == f.isPalindrome)
      && (rule != SingleWordRule && rule != WordCountRule ==> r.wordCount == f.wordCount)
      && (rule != LongerThanRule ==> r.minLength == f.minLength)
      && (rule != ShorterThanRule ==> r.maxLength == f.maxLength)
      && (rule != ContainingRule && rule != FirstVowelRule ==> r.containsCharacter == f.containsCharacter)
  {
  }

  /** A rule keeps the translator's shape. */
  lemma ApplyKeepsShape(rule: Rule, q: string, f: FilterSet)
    ensures TranslatorShape(f) ==> TranslatorShape(Apply(rule, q, f))
  {
  }

  /** What the translator produces for `query`: every rule, in order, on the lower-cased query. */
  function Translate(query: string): (r: FilterSet)
    ensures TranslatorShape(r)
  {
    RunRules(Rules, LowerAll(query), NoFilters)
  }

  /** `parseNaturalLanguage`: the conditional assignments one after the other. */
  method ParseNaturalLanguage(query: string) returns (filters: FilterSet)
    ensures filters == Translate(query)
  {
    filters := NoFilters;
    var lowerQuery := LowerAll(query);
    ghost var f0 := filters;

    if Contains(lowerQuery, "palindrome") || Contains(lowerQuery, "palindromic") {
      filters := filters.(isPalindrome := Some(true));
    }
    ApplyPalindrome(lowerQuery, f0, filters);
    ghost var f1 := filters;

    if Contains(lowerQuery, "single word") {
      filters := filters.(wordCount := Some(1));
    }
    ApplySingleWord(lowerQuery, f1, filters);
    ghost var f2 := filters;

    var wordCountMatch := Capture(WordsPattern, lowerQuery);
    if wordCountMatch.Some? {
      filters := filters.(wordCount := Some(Number(wordCountMatch.value)));
    }
    ApplyWordCount(lowerQuery, f2, wordCountMatch, filters);
    ghost var f3 := filters;

    var longerThanMatch := Capture(LongerThanPattern, lowerQuery);
    if longerThanMatch.Some? {
      filters := filters.(minLength := Some(Number(longerThanMatch.value) + 1));
    }
    ApplyLongerThan(lowerQuery, f3, longerThanMatch, filters);
    ghost var f4 := filters;

    var shorterThanMatch := Capture(ShorterThanPattern, lowerQuery);
    if shorterThanMatch.Some? {
      filters := filters.(maxLength := Some(Number(shorterThanMatch.value) - 1));
    }
    ApplyShorterThan(lowerQuery, f4, shorterThanMatch, filters);
    ghost var f5 := filters;

    var containsMatch := Capture(ContainingPattern, lowerQuery);
    if containsMatch.Some? {
      filters := filters.(containsCharacter := Some(containsMatch.value[0]));
    }
    ApplyContaining(lowerQuery, f5, containsMatch, filters);
    ghost var f6 := filters;

    if Contains(lowerQuery, "first vowel") {
      filters := filters.(containsCharacter := Some('a'));
    }
    ApplyFirstVowel(lowerQuery, f6, filters);
    TranslateSteps(query);
  }

  // What one rule does, each in terms of the capture it reads.

  lemma ApplyPalindrome(q: string, f: FilterSet, g: FilterSet)
    requires g == if Contains(q, "palindrome") || Contains(q, "palindromic") then f.(isPalindrome := Some(true)) else f
    ensures g == Apply(PalindromeRule, q, f)
  {
  }

  lemma ApplySingleWord(q: string, f: FilterSet, g: FilterSet)
    requires g == if Contains(q, "single word") then f.(wordCount := Some(1)) else f
    ensures g == Apply(SingleWordRule, q, f)
  {
  }

  lemma ApplyWordCount(q: string, f: FilterSet, c: Option<string>, g: FilterSet)
    requires c == Capture(WordsPattern, q)
    requires g == if c.Some? then f.(wordCount := Some(Number(c.value))) else f
    ensures g == Apply(WordCountRule, q, f)
  {
  }

  lemma ApplyLongerThan(q: string, f: FilterSet, c: Option<string>, g: FilterSet)
    requires c == Capture(LongerThanPattern, q)
    requires g == if c.Some? then f.(minLength := Some(Number(c.value) + 1)) else f
    ensures g == Apply(LongerThanRule, q, f)
  {
  }

  lemma ApplyShorterThan(q: string, f: FilterSet, c: Option<string>, g: FilterSet)
    requires c == Capture(ShorterThanPattern, q)
    requires g == if c.Some? then f.(maxLength := Some(Number(c.value) - 1)) else f
    ensures g == Apply(ShorterThanRule, q, f)
  {
  }

  lemma ApplyContaining(q: string, f: FilterSet, c: Option<string>, g: FilterSet)
    requires c == Capture(ContainingPattern, q)
    requires g == if c.Some? then f.(containsCharacter := Some(c.value[0])) else f
    ensures g == Apply(ContainingRule, q, f)
  {
  }

  lemma ApplyFirstVowel(q: string, f: FilterSet, g: FilterSet)
    requires g == if Contains(q, "first vowel") then f.(containsCharacter := Some('a')) else f
    ensures g == Apply(FirstVowelRule, q, f)
  {
  }

  /** The fold over `Rules`, written out rule by rule. */
  lemma TranslateSteps(query: string)
    ensures var q := LowerAll(query);
      Translate(query) ==
        Apply(FirstVowelRule, q, Apply(ContainingRule, q, Apply(ShorterThanRule, q,
        Apply(LongerThanRule, q, Apply(WordCountRule, q, Apply(SingleWordRule, q,
        Apply(PalindromeRule, q, NoFilters)))))))
  {
    var q := LowerAll(query);
    var f1 := Apply(PalindromeRule, q, NoFilters);
    var f2 := Apply(SingleWordRule, q, f1);
    var f3 := Apply(WordCountRule, q, f2);
    var f4 := Apply(LongerThanRule, q, f3);
    var f5 := Apply(ShorterThanRule, q, f4);
    var f6 := Apply(ContainingRule, q, f5);
    var f7 := Apply(FirstVowelRule, q, f6);
    assert Rules[1..] == [SingleWordRule, WordCountRule, LongerThanRule, ShorterThanRule, ContainingRule, FirstVowelRule];
    assert Rules[1..][1..] == [WordCountRule, LongerThanRule, ShorterThanRule, ContainingRule, FirstVowelRule];
    assert Rules[1..][1..][1..] == [LongerThanRule, ShorterThanRule, ContainingRule, FirstVowelRule];
    assert Rules[1..][1..][1..][1..] == [ShorterThanRule, ContainingRule, FirstVowelRule];
    assert Rules[1..][1..][1..][1..][1..] == [ContainingRule, FirstVowelRule];
    assert Rules[1..][1..][1..][1..][1..][1..] == [FirstVowelRule];
    assert RunRules([FirstVowelRule], q, f6) == f7;
    assert RunRules([ContainingRule, FirstVowelRule], q, f5) == f7;
    assert RunRules([ShorterThanRule, ContainingRule, FirstVowelRule], q, f4) == f7;
    assert RunRules([LongerThanRule, ShorterThanRule, ContainingRule, FirstVowelRule], q, f3) == f7;
    assert RunRules([WordCountRule, LongerThanRule, ShorterThanRule, ContainingRule, FirstVowelRule], q, f2) == f7;
    assert RunRules(Rules[1..], q, f1) == f7;
  }

  // ---------------------------------------------------------------------------------------------
  // What a translation holds.
  // ---------------------------------------------------------------------------------------------

  /** The translation reads only the lower-cased query. */
  lemma TranslateIgnoresCase(query: string)
    ensures Translate(LowerAll(query)) == Translate(query)
  {
    LowerAllIdempotent(query);
  }

  /** Each rule writes only its own field, and what it writes there. */
  lemma ApplyWrites(rule: Rule, q: string, f: FilterSet)
    ensures var g := Apply(rule, q, f);
      && g.isPalindrome ==
        (if rule == PalindromeRule && (Contains(q, "palindrome") || Contains(q, "palindromic")) then Some(true)
         else f.isPalindrome)
      && g.wordCount ==
        (if rule == SingleWordRule && Contains(q, "single word") then Some(1)
         else if rule == WordCountRule && CapturedNumber(WordsPattern, q).Some? then CapturedNumber(WordsPattern, q)
         else f.wordCount)
      && g.minLength ==
        (if rule == LongerThanRule && CapturedNumber(LongerThanPattern, q).Some? then
           Some(CapturedNumber(LongerThanPattern, q).value + 1)
         else f.minLength)
      && g.maxLength ==
        (if rule == ShorterThanRule && CapturedNumber(ShorterThanPattern, q).Some? then
           Some(CapturedNumber(ShorterThanPattern, q).value - 1)
         else f.maxLength)
      && g.containsCharacter ==
        (if rule == ContainingRule && CapturedLetter(q).Some? then CapturedLetter(q)
         else if rule == FirstVowelRule && Contains(q, "first vowel") then Some('a')
         else f.containsCharacter)
  {
  }

  /**
   * Every field of a translation, read off the rules that write it: the last rule to fire on a
   * field decides its value, and a field no rule writes stays absent.
   */
  lemma TranslateFields(query: string)
    ensures var q := LowerAll(query); var t := Translate(query);
      && t.isPalindrome == (if Contains(q, "palindrome") || Contains(q, "palindromic") then Some(true) else None)
      && t.wordCount ==
        (if CapturedNumber(WordsPattern, q).Some? then CapturedNumber(WordsPattern, q)
         else if Contains(q, "single word") then Some(1)
         else None)
      && (var n := CapturedNumber(LongerThanPattern, q); t.minLength == if n.Some? then Some(n.value + 1) else None)
      && (var n := CapturedNumber(ShorterThanPattern, q); t.maxLength == if n.Some? then Some(n.value - 1) else None)
      && t.containsCharacter == if Contains(q, "first vowel") then Some('a') else CapturedLetter(q)
  {
    var q := LowerAll(query);
    var f1 := Apply(PalindromeRule, q, NoFilters);
    var f2 := Apply(SingleWordRule, q, f1);
    var f3 := Apply(WordCountRule, q, f2);
    var f4 := Apply(LongerThanRule, q, f3);
    var f5 := Apply(ShorterThanRule, q, f4);
    var f6 := Apply(ContainingRule, q, f5);
    TranslateSteps(query);
    ApplyWrites(PalindromeRule, q, NoFilters);
    ApplyWrites(SingleWordRule, q, f1);
    ApplyWrites(WordCountRule, q, f2);
    ApplyWrites(LongerThanRule, q, f3);
    ApplyWrites(ShorterThanRule, q, f4);
    ApplyWrites(ContainingRule, q, f5);
    ApplyWrites(FirstVowelRule, q, f6);
  }

  /** The palindrome flag: set to true by its rule, absent otherwise. */
  lemma TranslatePalindromeField(query: string)
    ensures var q := LowerAll(query);
      Translate(query).isPalindrome == (if Contains(q, "palindrome") || Contains(q, "palindromic") then Some(true) else None)
  {
    TranslateFields(query);
  }

  /** The word count: the "<digits> word" rule, written after "single word", wins over it. */
  lemma TranslateWordCountField(query: string)
    ensures var q := LowerAll(query);
      Translate(query).wordCount ==
        (if CapturedNumber(WordsPattern, q).Some? then CapturedNumber(WordsPattern, q)
         else if Contains(q, "single word") then Some(1)
         else None)
  {
    TranslateFields(query);
  }

  /** The minimum length: one more than the number after the leftmost "longer than ". */
  lemma TranslateMinLengthField(query: string)
    ensures var n := CapturedNumber(LongerThanPattern, LowerAll(query));
      Translate(query).minLength == if n.Some? then Some(n.value + 1) else None
  {
    TranslateFields(query);
  }

  /** The maximum length: one less than the number after the leftmost "shorter than ". */
  lemma TranslateMaxLengthField(query: string)
    ensures var n := CapturedNumber(ShorterThanPattern, LowerAll(query));
      Translate(query).maxLength == if n.Some? then Some(n.value - 1) else None
  {
    TranslateFields(query);
  }

  /** The character: "first vowel", written last, wins over a "containing" letter. */
  lemma TranslateCharacterField(query: string)
    ensures var q := LowerAll(query);
      Translate(query).containsCharacter == if Contains(q, "first vowel") then Some('a') else CapturedLetter(q)
  {
    TranslateFields(query);
  }

  /** The palindrome flag is set, and then to true, exactly when one of its two words occurs. */
  lemma TranslatePalindromeFlag(query: string)
    ensures var q := LowerAll(query);
      Translate(query).isPalindrome.Some? <==> Contains(q, "palindrome") || Contains(q, "palindromic")
    ensures Translate(query).isPalindrome != Some(false)
  {
    TranslatePalindromeField(query);
  }

  /**
   * The leftmost "<digits> word" sets the word count to its number, whether or not the query also
   * says "single word".
   */
  lemma TranslateWordCount(query: string, i: nat, d: nat, k: nat)
    requires WordsMatch(LowerAll(query), i, d, k)
    requires forall j :: 0 <= j < i ==> MatchAt(WordsPattern, LowerAll(query), j).None?
    ensures var q := LowerAll(query);
      Translate(query).wordCount == Some(DecimalValue(q[i..i + d]))
  {
    var q := LowerAll(query);
    WordsAtMatches(q, i);
    CaptureIsLeftmost(WordsPattern, q, i);
    TranslateWordCountField(query);
  }

  /** Without a "<digits> word", "single word" sets the word count to 1. */
  lemma TranslateSingleWord(query: string)
    requires Contains(LowerAll(query), "single word")
    requires forall j :: 0 <= j <= |query| ==> MatchAt(WordsPattern, LowerAll(query), j).None?
    ensures Translate(query).wordCount == Some(1)
  {
    CaptureNone(WordsPattern, LowerAll(query));
    TranslateWordCountField(query);
  }

  /** The leftmost "longer than N" captures the digits N right after the phrase. */
  lemma LongerThanCapture(q: string, i: nat, d: nat)
    requires NumberMatch("longer than ", q, i, d)
    requires forall j :: 0 <= j < i ==> MatchAt(LongerThanPattern, q, j).None?
    ensures IsNumeral(q[i + 12..i + 12 + d])
    ensures CapturedNumber(LongerThanPattern, q) == Some(DecimalValue(q[i + 12..i + 12 + d]))
  {
    assert |"longer than "| == 12;
    var g := q[i + 12..i + 12 + d];
    NumberAfterMatches("longer than ", q, i);
    assert MatchAt(LongerThanPattern, q, i) == Some(g);
    CaptureIsLeftmost(LongerThanPattern, q, i);
  }

  /** A captured "longer than N" sets the minimum length to N + 1. */
  lemma MinLengthFromCapture(query: string, n: nat)
    requires CapturedNumber(LongerThanPattern, LowerAll(query)) == Some(n)
    ensures Translate(query).minLength == Some(n + 1)
  {
    TranslateMinLengthField(query);
  }

  /** The leftmost "shorter than N" captures the digits N right after the phrase. */
  lemma ShorterThanCapture(q: string, i: nat, d: nat)
    requires NumberMatch("shorter than ", q, i, d)
    requires forall j :: 0 <= j < i ==> MatchAt(ShorterThanPattern, q, j).None?
    ensures IsNumeral(q[i + 13..i + 13 + d])
    ensures CapturedNumber(ShorterThanPattern, q) == Some(DecimalValue(q[i + 13..i + 13 + d]))
  {
    assert |"shorter than "| == 13;
    var g := q[i + 13..i + 13 + d];
    NumberAfterMatches("shorter than ", q, i);
    assert MatchAt(ShorterThanPattern, q, i) == Some(g);
    CaptureIsLeftmost(ShorterThanPattern, q, i);
  }

  /** A captured "shorter than N" sets the maximum length to N - 1, which is -1 for N = 0. */
  lemma MaxLengthFromCapture(query: string, n: nat)
    requires CapturedNumber(ShorterThanPattern, LowerAll(query)) == Some(n)
    ensures Translate(query).maxLength == Some(n - 1)
  {
    TranslateMaxLengthField(query);
  }

  /** A character constraint is one lower-case letter, and "first vowel" makes it 'a'. */
  lemma TranslateCharacter(query: string)
    ensures var c := Translate(query).containsCharacter;
      c.Some? ==> IsLowerLetter(c.value)
    ensures Contains(LowerAll(query), "first vowel") ==> Translate(query).containsCharacter == Some('a')
  {
    TranslateCharacterField(query);
  }

  /** A query with none of the rules' words yields the empty filter set. */
  lemma TranslateWithoutKeywords(query: string)
    requires var q := LowerAll(query);
      && !Contains(q, "palindrome") && !Contains(q, "palindromic") && !Contains(q, "word")
      && !Contains(q, "longer than ") && !Contains(q, "shorter than ") && !Contains(q, "containing ")
      && !Contains(q, "first vowel")
    ensures Translate(query) == NoFilters
  {
    var q := LowerAll(query);
    if Contains(q, "single word") {
      ContainsPart(q, "single word", "word", 7);
    }
    CaptureNeedsKeyword(WordsPattern, q);
    CaptureNeedsKeyword(LongerThanPattern, q);
    CaptureNeedsKeyword(ShorterThanPattern, q);
    CaptureNeedsKeyword(ContainingPattern, q);
    TranslatePalindromeField(query);
    TranslateWordCountField(query);
    TranslateMinLengthField(query);
    TranslateMaxLengthField(query);
    TranslateCharacterField(query);
  }

  // ---------------------------------------------------------------------------------------------
  // Worked queries.
  //
  // The small lemmas about slices and letters of a literal query only spare the solver from
  // reasoning about long string literals; the model itself is in the general lemmas above.
  // ---------------------------------------------------------------------------------------------

  /** A phrase pattern matches nowhere in a stretch that lacks its phrase's first letter. */
  lemma NoMatchBetween(p: Pattern, s: string, a: nat, b: nat)
    requires p != WordsPattern && a <= b <= |s| && Keyword(p)[0] !in s[a..b]
    ensures forall j :: a <= j < b ==> MatchAt(p, s, j).None?
  {
    forall j | a <= j < b
      ensures MatchAt(p, s, j).None?
    {
      assert s[a..b][j - a] == s[j];
      Mismatch(p, s, j, 0);
    }
  }

  /** A phrase pattern does not match where its phrase differs from the text in one place. */
  lemma Mismatch(p: Pattern, s: string, j: nat, k: nat)
    requires p != WordsPattern && j + k < |s| && k < |Keyword(p)| && s[j + k] != Keyword(p)[k]
    ensures MatchAt(p, s, j).None?
  {
    assert !OccursAt(s, j, Keyword(p)) by {
      if j + |Keyword(p)| <= |s| {
        assert s[j..j + |Keyword(p)|][k] == s[j + k];
      }
    }
    if p == ContainingPattern {
      ContainingAtMatches(s, j);
    }
  }

  /** No pattern matches at the very end of the text. */
  lemma NoMatchAtEnd(p: Pattern, s: string)
    ensures MatchAt(p, s, |s|).None?
  {
    if p == ContainingPattern {
      ContainingAtMatches(s, |s|);
    }
  }

  /** A rule whose phrase starts with a letter the query lacks does not fire. */
  lemma PhraseAbsent(q: string, phrase: string)
    requires phrase != [] && phrase[0] !in q
    ensures !Contains(q, phrase)
  {
    ContainsNeedsFirstChar(q, phrase);
  }

  /** "single word" is a use of "word". */
  lemma SingleWordHasWord(q: string)
    ensures Contains(q, "single word") ==> Contains(q, "word")
  {
    if Contains(q, "single word") {
      ContainsPart(q, "single word", "word", 7);
    }
  }

  /** "shorter than 0" makes the maximum length -1. */
  lemma ShorterThanZeroExample(query: string)
    requires query == "shorter than 0"
    ensures Translate(query) == FilterSet(None, None, Some(-1), None, None)
  {
    LowerAllOfLowerCase(query);
    ShorterThanZeroMaximum(query);
    ShorterThanZeroNothingElse(query);
  }

  lemma ShorterThanZeroMaximum(query: string)
    requires query == "shorter than 0" && LowerAll(query) == query
    ensures Translate(query).maxLength == Some(-1)
  {
    ShorterThanZeroCapture(query);
    MaxLengthFromCapture(query, 0);
  }

  lemma ShorterThanZeroCapture(query: string)
    requires query == "shorter than 0" && LowerAll(query) == query
    ensures CapturedNumber(ShorterThanPattern, LowerAll(query)) == Some(0)
  {
    assert query[..13] == "shorter than ";
    assert query[13..14] == "0";
    assert NumberMatch("shorter than ", query, 0, 1);
    ShorterThanCapture(query, 0, 1);
    assert DecimalValue("0") == 0;
  }

  lemma ShorterThanZeroNothingElse(query: string)
    requires query == "shorter than 0" && LowerAll(query) == query
    ensures var f := Translate(query);
      f.isPalindrome.None? && f.minLength.None? && f.wordCount.None? && f.containsCharacter.None?
  {
    ShorterThanZeroLetter(query, 'p');
    ShorterThanZeroLetter(query, 'w');
    ShorterThanZeroLetter(query, 'l');
    ShorterThanZeroLetter(query, 'c');
    ShorterThanZeroLetter(query, 'f');
    WithoutP(query);
    WithoutW(query);
    WithoutL(query);
    WithoutCF(query);
  }

  lemma ShorterThanZeroLetter(query: string, c: char)
    requires query == "shorter than 0"
    requires c == 'p' || c == 'w' || c == 'l' || c == 'c' || c == 'f'
    ensures c !in query
  {
  }

  // A field stays absent when the query lacks the first letter of every phrase that sets it.

  lemma WithoutP(query: string)
    requires 'p' !in LowerAll(query)
    ensures Translate(query).isPalindrome.None?
  {
    var q := LowerAll(query);
    PhraseAbsent(q, "palindrome");
    PhraseAbsent(q, "palindromic");
    TranslatePalindromeField(query);
  }

  lemma WithoutW(query: string)
    requires 'w' !in LowerAll(query)
    ensures Translate(query).wordCount.None?
  {
    var q := LowerAll(query);
    PhraseAbsent(q, "word");
    SingleWordHasWord(q);
    CaptureNeedsKeyword(WordsPattern, q);
    TranslateWordCountField(query);
  }

  lemma WithoutL(query: string)
    requires 'l' !in LowerAll(query)
    ensures Translate(query).minLength.None?
  {
    var q := LowerAll(query);
    PhraseAbsent(q, "longer than ");
    CaptureNeedsKeyword(LongerThanPattern, q);
    TranslateMinLengthField(query);
  }

  lemma WithoutCF(query: string)
    requires 'c' !in LowerAll(query) && 'f' !in LowerAll(query)
    ensures Translate(query).containsCharacter.None?
  {
    var q := LowerAll(query);
    PhraseAbsent(q, "containing ");
    PhraseAbsent(q, "first vowel");
    CaptureNeedsKeyword(ContainingPattern, q);
    TranslateCharacterField(query);
  }


  /** Where the phrases of the worked query sit. */
  lemma SlicesOfLongerAndShorter(query: string)
    requires query == "longer than 10 shorter than 5"
    ensures query[..12] == "longer than "
    ensures query[12..14] == "10"
    ensures query[15..28] == "shorter than "
    ensures query[28..29] == "5"
    ensures query[0..15] == "longer than 10 "
  {
    SliceOfLongerAndShorter(query, 0, 12, "longer than ");
    SliceOfLongerAndShorter(query, 12, 14, "10");
    SliceOfLongerAndShorter(query, 15, 28, "shorter than ");
    SliceOfLongerAndShorter(query, 28, 29, "5");
    SliceOfLongerAndShorter(query, 0, 15, "longer than 10 ");
  }

  lemma SliceOfLongerAndShorter(query: string, i: nat, j: nat, part: string)
    requires query == "longer than 10 shorter than 5"
    requires i <= j <= |query| && |part| == j - i
    requires forall k :: 0 <= k < |part| ==> part[k] == query[i + k]
    ensures query[i..j] == part
  {
  }

  /** "longer than 10 shorter than 5" gives a minimum of 11 above a maximum of 4. */
  lemma LongerAndShorterExample(query: string)
    requires query == "longer than 10 shorter than 5"
    ensures Translate(query) == FilterSet(None, Some(11), Some(4), None, None)
  {
    LongerThanTenMinimum(query);
    ShorterThanFiveMaximum(query);
    LongerAndShorterNothingElse(query);
  }

  lemma LongerAndShorterNothingElse(query: string)
    requires query == "longer than 10 shorter than 5"
    ensures var f := Translate(query);
      f.isPalindrome.None? && f.wordCount.None? && f.containsCharacter.None?
  {
    LongerAndShorterIsLowerCase(query);
    LongerAndShorterLetters(query);
    WithoutP(query);
    WithoutW(query);
    WithoutCF(query);
  }

  lemma LongerAndShorterLetters(query: string)
    requires query == "longer than 10 shorter than 5"
    ensures 'p' !in query && 'w' !in query && 'c' !in query && 'f' !in query
  {
    LetterAbsent(query, 'p');
    LetterAbsent(query, 'w');
    LetterAbsent(query, 'c');
    LetterAbsent(query, 'f');
  }

  lemma LetterAbsent(query: string, c: char)
    requires query == "longer than 10 shorter than 5"
    requires c == 'p' || c == 'w' || c == 'c' || c == 'f'
    ensures c !in query
  {
  }

  lemma LongerThanTenMinimum(query: string)
    requires query == "longer than 10 shorter than 5"
    ensures Translate(query).minLength == Some(11)
  {
    LongerThanTenCapture(query);
    MinLengthFromCapture(query, 10);
  }

  lemma LongerThanTenCapture(query: string)
    requires query == "longer than 10 shorter than 5"
    ensures CapturedNumber(LongerThanPattern, LowerAll(query)) == Some(10)
  {
    LongerAndShorterIsLowerCase(query);
    LongerThanTenMatch(query);
    SlicesOfLongerAndShorter(query);
    LongerThanTenAt(query);
  }

  lemma LongerThanTenAt(q: string)
    requires LowerAll(q) == q && NumberMatch("longer than ", q, 0, 2) && q[12..14] == "10"
    ensures CapturedNumber(LongerThanPattern, LowerAll(q)) == Some(10)
  {
    LongerThanCapture(q, 0, 2);
    DecimalTen();
  }

  lemma LongerThanTenMatch(query: string)
    requires query == "longer than 10 shorter than 5"
    ensures NumberMatch("longer than ", query, 0, 2)
  {
    SlicesOfLongerAndShorter(query);
  }

  lemma DecimalTen()
    ensures DecimalValue("10") == 10
  {
    assert "10"[..1] == "1";
  }

  lemma ShorterThanFiveMaximum(query: string)
    requires query == "longer than 10 shorter than 5"
    ensures Translate(query).maxLength == Some(4)
  {
    ShorterThanFiveCapture(query);
    MaxLengthFromCapture(query, 5);
  }

  lemma ShorterThanFiveCapture(query: string)
    requires query == "longer than 10 shorter than 5"
    ensures CapturedNumber(ShorterThanPattern, LowerAll(query)) == Some(5)
  {
    LongerAndShorterIsLowerCase(query);
    ShorterThanFiveMatch(query);
    ShorterThanCapture(query, 15, 1);
  }

  lemma ShorterThanFiveMatch(query: string)
    requires query == "longer than 10 shorter than 5"
    ensures NumberMatch("shorter than ", query, 15, 1)
    ensures forall j :: 0 <= j < 15 ==> MatchAt(ShorterThanPattern, query, j).None?
  {
    SlicesOfLongerAndShorter(query);
    NoMatchBetween(ShorterThanPattern, query, 0, 15);
  }

  lemma LongerAndShorterIsLowerCase(query: string)
    requires query == "longer than 10 shorter than 5"
    ensures LowerAll(query) == query
  {
    LowerAllOfLowerCase(query);
  }
}
