/**
 * The string analyzer: the properties the service computes, once, for every string it stores.
 * The SHA-256 fingerprint comes from a digest function the caller supplies (`hash`); nothing
 * is assumed about it beyond being a function.
 */
module Analyzer {
  import opened Text

  /** The properties of one stored string. */
  datatype Properties = Properties(
    length: nat,
    isPalindrome: bool,
    uniqueCharacters: nat,
    wordCount: nat,
    sha256Hash: string,
    characterFrequencyMap: map<char, nat>)

  // ---------------------------------------------------------------------------------------
  // Palindrome flag
  // ---------------------------------------------------------------------------------------

  /** `s.replace(/\s/g, "")`: every whitespace character removed, the others kept in order. */
  function RemoveWhitespace(s: string): (r: string)
    ensures |r| <= |s|
    ensures forall i :: 0 <= i < |r| ==> !IsWhitespace(r[i])
  {
    if s == [] then [] else (if IsWhitespace(s[0]) then [] else [s[0]]) + RemoveWhitespace(s[1..])
  }

  lemma {:induction false} RemoveWhitespaceAppend(a: string, b: string)
    ensures RemoveWhitespace(a + b) == RemoveWhitespace(a) + RemoveWhitespace(b)
  {
    if a == [] {
      assert a + b == b;
    } else {
      assert (a + b)[1..] == a[1..] + b;
      RemoveWhitespaceAppend(a[1..], b);
    }
  }

  /** Text without whitespace is left as it is. */
  lemma {:induction false} RemoveWhitespaceOfClean(s: string)
    requires forall i :: 0 <= i < |s| ==> !IsWhitespace(s[i])
    ensures RemoveWhitespace(s) == s
  {
    if s != [] {
      RemoveWhitespaceOfClean(s[1..]);
    }
  }

  /** Removing whitespace commutes with reversing. */
  lemma {:induction false} RemoveWhitespaceReverse(s: string)
    ensures RemoveWhitespace(Reverse(s)) == Reverse(RemoveWhitespace(s))
  {
    if s != [] {
      var head := if IsWhitespace(s[0]) then [] else [s[0]];
      RemoveWhitespaceAppend(Reverse(s[1..]), [s[0]]);
      assert RemoveWhitespace([s[0]]) == head;
      RemoveWhitespaceReverse(s[1..]);
      ReverseAppend(head, RemoveWhitespace(s[1..]));
      assert Reverse(head) == head;
    }
  }

  /** Lower-casing commutes with reversing. */
  lemma LowerAllReverse(s: string)
    ensures LowerAll(Reverse(s)) == Reverse(LowerAll(s))
  {
    forall k | 0 <= k < |s|
      ensures LowerAll(Reverse(s))[k] == Reverse(LowerAll(s))[k]
    {
      ReverseAt(s, k);
      ReverseAt(LowerAll(s), k);
    }
  }

  /** `value.toLowerCase().replace(/\s/g, "")`. */
  function Normalize(value: string): string {
    RemoveWhitespace(LowerAll(value))
  }

  /**
   * The normalized value reads the same backwards: the flag holds exactly when the normalized
   * value has equal characters at every pair of mirrored positions.
   */
  predicate IsPalindrome(value: string)
    ensures var n := Normalize(value);
      IsPalindrome(value) <==> forall i :: 0 <= i < |n| ==> n[i] == n[|n| - 1 - i]
  {
    var normalized := Normalize(value);
    ReversedIffMirrored(normalized);
    normalized == Reverse(normalized)
  }

  lemma ReversedIffMirrored(n: string)
    ensures n == Reverse(n) <==> forall i :: 0 <= i < |n| ==> n[i] == n[|n| - 1 - i]
  {
    forall i | 0 <= i < |n|
      ensures Reverse(n)[i] == n[|n| - 1 - i]
    {
      ReverseAt(n, i);
    }
  }

  /** A value is a palindrome exactly when its reversal is. */
  lemma PalindromeOfReverse(value: string)
    ensures IsPalindrome(Reverse(value)) == IsPalindrome(value)
  {
    var n := Normalize(value);
    LowerAllReverse(value);
    RemoveWhitespaceReverse(LowerAll(value));
    assert Normalize(Reverse(value)) == Reverse(n);
    ReverseReverse(n);
  }

  /** Case and whitespace are ignored: "A man am a" normalizes to "amanama", which reads the
      same backwards. */
  lemma PalindromeExample()
    ensures Normalize("A man am a") == "amanama"
    ensures IsPalindrome("A man am a")
  {
    LowerCaseExample();
    RemoveWhitespaceExample();
    ReverseExample();
  }

  lemma LowerCaseExample()
    ensures LowerAll("A man am a") == "a man am a"
  {
    assert LowerAll("A man am a")[0] == 'a';
  }

  lemma RemoveWhitespaceExample()
    ensures RemoveWhitespace("a man am a") == "amanama"
  {
    assert "a man am a" == "a man" + " am a";
    RemoveWhitespaceAppend("a man", " am a");
    RemoveWhitespaceHeadExample();
    RemoveWhitespaceTailExample();
    assert "aman" + "ama" == "amanama";
  }

  lemma RemoveWhitespaceHeadExample()
    ensures RemoveWhitespace("a man") == "aman"
  {
    assert "n"[1..] == "";
    assert RemoveWhitespace("n") == "n";
    assert "an"[1..] == "n";
    assert RemoveWhitespace("an") == "an";
    assert "man"[1..] == "an";
    assert RemoveWhitespace("man") == "man";
    assert " man"[1..] == "man";
    assert RemoveWhitespace(" man") == "man";
    assert "a man"[1..] == " man";
  }

  lemma RemoveWhitespaceTailExample()
    ensures RemoveWhitespace(" am a") == "ama"
  {
    assert "a"[1..] == "";
    assert RemoveWhitespace("a") == "a";
    assert " a"[1..] == "a";
    assert RemoveWhitespace(" a") == "a";
    assert "m a"[1..] == " a";
    assert RemoveWhitespace("m a") == "ma";
    assert "am a"[1..] == "m a";
    assert RemoveWhitespace("am a") == "ama";
    assert " am a"[1..] == "am a";
    assert RemoveWhitespace(" am a") == "ama";
  }

  lemma ReverseExample()
    ensures Reverse("amanama") == "amanama"
  {
    var n := "amanama";
    forall k | 0 <= k < |n|
      ensures Reverse(n)[k] == n[k]
    {
      ReverseAt(n, k);
    }
  }

  // ---------------------------------------------------------------------------------------
  // Distinct characters
  // ---------------------------------------------------------------------------------------

  /** The characters occurring in `value`: `new Set(value)`. */
  function Chars(value: string): set<char> {
    set c | c in value
  }

  /**
   * `new Set(value).size`: never more distinct characters than characters, and none only
   * for "".
   */
  function UniqueCharacters(value: string): (r: nat)
    ensures r <= |value|
    ensures r == 0 <==> value == []
  {
    CharsBounds(value);
    |Chars(value)|
  }

  lemma {:induction false} CharsBounds(value: string)
    ensures |Chars(value)| <= |value|
    ensures |Chars(value)| == 0 <==> value == []
  {
    if value != [] {
      var prefix, last := value[..|value| - 1], value[|value| - 1];
      assert value == prefix + [last];
      assert Chars(value) == Chars(prefix) + {last};
      CharsBounds(prefix);
      assert last in Chars(value);
    }
  }

  // ---------------------------------------------------------------------------------------
  // Word count
  // ---------------------------------------------------------------------------------------

  /**
   * `s.split(/\s+/)` where `current` is the part of the first token read so far: every
   * maximal run of whitespace separates two tokens, so leading or trailing whitespace
   * yields an empty token, and "" yields [""].
   */
  function SplitOnWhitespace(s: string, current: string): seq<string>
    decreases |s|
  {
    if s == [] then [current]
    else if IsWhitespace(s[0]) then [current] + SplitOnWhitespace(TrimStart(s[1..]), [])
    else SplitOnWhitespace(s[1..], current + [s[0]])
  }

  /** `tokens.filter((word) => word.length > 0).length`. */
  function CountNonEmpty(tokens: seq<string>): nat {
    if tokens == [] then 0 else (if tokens[0] != [] then 1 else 0) + CountNonEmpty(tokens[1..])
  }

  /**
   * `value.trim().split(/\s+/).filter((word) => word.length > 0).length`: the number of
   * maximal runs of non-whitespace characters, as `RunCount` counts them independently.
   */
  function WordCount(value: string): (r: nat)
    ensures r == RunCount(value, false)
  {
    SplitCountsRuns(Trim(value), []);
    RunCountTrimEnd(TrimStart(value), false);
    RunCountTrimStart(value);
    CountNonEmpty(SplitOnWhitespace(Trim(value), []))
  }

  /**
   * An independent count of the words of `s`: the number of positions holding a
   * non-whitespace character that starts a maximal run of them, where a run already under
   * way at the start of `s` (`inRun`) is not counted again.
   */
  function RunCount(s: string, inRun: bool): nat {
    if s == [] then 0
    else if IsWhitespace(s[0]) then RunCount(s[1..], false)
    else (if inRun then 0 else 1) + RunCount(s[1..], true)
  }

  lemma {:induction false} RunCountTrimStart(s: string)
    ensures RunCount(TrimStart(s), false) == RunCount(s, false)
  {
    if s != [] && IsWhitespace(s[0]) {
      RunCountTrimStart(s[1..]);
    }
  }

  lemma {:induction false} RunCountWhitespaceSuffix(s: string, w: char, inRun: bool)
    requires IsWhitespace(w)
    ensures RunCount(s + [w], inRun) == RunCount(s, inRun)
  {
    if s != [] {
      assert (s + [w])[1..] == s[1..] + [w];
      RunCountWhitespaceSuffix(s[1..], w, false);
      RunCountWhitespaceSuffix(s[1..], w, true);
    }
  }

  lemma {:induction false} RunCountTrimEnd(s: string, inRun: bool)
    ensures RunCount(TrimEnd(s), inRun) == RunCount(s, inRun)
  {
    if s != [] && IsWhitespace(s[|s| - 1]) {
      assert s == s[..|s| - 1] + [s[|s| - 1]];
      RunCountWhitespaceSuffix(s[..|s| - 1], s[|s| - 1], inRun);
      RunCountTrimEnd(s[..|s| - 1], inRun);
    }
  }

  /** Splitting counts one non-empty token per run, plus the token already begun. */
  lemma {:induction false} SplitCountsRuns(s: string, current: string)
    ensures CountNonEmpty(SplitOnWhitespace(s, current))
         == (if current != [] then 1 else 0) + RunCount(s, current != [])
    decreases |s|
  {
    if s == [] {
    } else if IsWhitespace(s[0]) {
      var rest := SplitOnWhitespace(TrimStart(s[1..]), []);
      assert ([current] + rest)[1..] == rest;
      SplitCountsRuns(TrimStart(s[1..]), []);
      RunCountTrimStart(s[1..]);
    } else {
      SplitCountsRuns(s[1..], current + [s[0]]);
    }
  }

  lemma {:induction false} RunCountAtMostLength(s: string, inRun: bool)
    ensures RunCount(s, inRun) <= |s|
  {
    if s != [] {
      RunCountAtMostLength(s[1..], false);
      RunCountAtMostLength(s[1..], true);
    }
  }

  lemma {:induction false} RunCountZeroIffBlank(s: string)
    ensures RunCount(s, false) == 0 <==> forall i :: 0 <= i < |s| ==> IsWhitespace(s[i])
  {
    if s != [] && IsWhitespace(s[0]) {
      RunCountZeroIffBlank(s[1..]);
      assert forall i :: 1 <= i < |s| ==> s[i] == s[1..][i - 1];
    }
  }

  /** At most one word per character, and no word exactly for blank (or empty) values. */
  lemma WordCountBounds(value: string)
    ensures WordCount(value) <= |value|
    ensures WordCount(value) == 0 <==> forall i :: 0 <= i < |value| ==> IsWhitespace(value[i])
  {
    RunCountAtMostLength(value, false);
    RunCountZeroIffBlank(value);
  }

  // ---------------------------------------------------------------------------------------
  // Character frequency map
  // ---------------------------------------------------------------------------------------

  /** Each character of `value` mapped to the number of times it occurs. */
  function Frequencies(value: string): (r: map<char, nat>)
    ensures forall c :: c in r <==> c in value
    ensures forall c :: c in r ==> 1 <= r[c] <= |value|
  {
    var m := map c | c in Chars(value) :: Occurrences(value, c);
    forall c | c in m
      ensures 1 <= m[c] <= |value|
    {
      OccurrencesPositive(value, c);
    }
    m
  }

  lemma FrequenciesOfEmpty()
    ensures Frequencies([]) == map[]
  {
    assert Chars([]) == {};
  }

  /** One more character bumps its own entry (creating it at 1) and no other. */
  lemma FrequenciesAppend(s: string, c: char)
    ensures var m := Frequencies(s);
      Frequencies(s + [c]) == m[c := (if c in m then m[c] else 0) + 1]
  {
    var m := Frequencies(s);
    assert (s + [c])[..|s|] == s;
    assert Chars(s + [c]) == Chars(s) + {c};
    if c !in s {
      OccurrencesPositive(s, c);
    }
  }

  /** The sum of the counts `m` gives the characters listed in `keys` (0 for an absent one). */
  function SumCounts(m: map<char, nat>, keys: seq<char>): nat {
    if keys == [] then 0
    else SumCounts(m, keys[..|keys| - 1]) + (if keys[|keys| - 1] in m then m[keys[|keys| - 1]] else 0)
  }

  predicate NoDuplicates(keys: seq<char>) {
    forall i, j :: 0 <= i < j < |keys| ==> keys[i] != keys[j]
  }

  /** The total number of occurrences in `s` of the characters listed in `keys`. */
  function TotalOccurrences(s: string, keys: seq<char>): nat {
    if keys == [] then 0
    else TotalOccurrences(s, keys[..|keys| - 1]) + Occurrences(s, keys[|keys| - 1])
  }

  lemma {:induction false} SumCountsOfFrequencies(s: string, keys: seq<char>)
    requires forall k :: k in keys ==> k in s
    ensures SumCounts(Frequencies(s), keys) == TotalOccurrences(s, keys)
  {
    if keys != [] {
      SumCountsOfFrequencies(s, keys[..|keys| - 1]);
    }
  }

  lemma {:induction false} TotalOccurrencesOfEmpty(keys: seq<char>)
    ensures TotalOccurrences([], keys) == 0
  {
    if keys != [] {
      TotalOccurrencesOfEmpty(keys[..|keys| - 1]);
    }
  }

  lemma {:induction false} TotalOccurrencesAppend(s: string, x: char, keys: seq<char>)
    ensures TotalOccurrences(s + [x], keys) == TotalOccurrences(s, keys) + Occurrences(keys, x)
  {
    assert (s + [x])[..|s|] == s;
    if keys != [] {
      TotalOccurrencesAppend(s, x, keys[..|keys| - 1]);
    }
  }

  lemma {:induction false} OccurrencesOfDistinct(keys: seq<char>, x: char)
    requires NoDuplicates(keys) && x in keys
    ensures Occurrences(keys, x) == 1
  {
    var prefix := keys[..|keys| - 1];
    assert keys == prefix + [keys[|keys| - 1]];
    if keys[|keys| - 1] == x {
      OccurrencesPositive(prefix, x);
    } else {
      OccurrencesOfDistinct(prefix, x);
    }
  }

  lemma {:induction false} TotalOccurrencesIsLength(s: string, keys: seq<char>)
    requires NoDuplicates(keys)
    requires forall c :: c in s ==> c in keys
    ensures TotalOccurrences(s, keys) == |s|
  {
    if s == [] {
      TotalOccurrencesOfEmpty(keys);
    } else {
      var prefix, last := s[..|s| - 1], s[|s| - 1];
      assert s == prefix + [last];
      TotalOccurrencesAppend(prefix, last, keys);
      OccurrencesOfDistinct(keys, last);
      TotalOccurrencesIsLength(prefix, keys);
    }
  }

  /** The keys of the frequency map are the characters of `value`, as many as
      `unique_characters` counts, and every entry is the character's occurrence count. */
  lemma FrequencyMapKeys(value: string)
    ensures Frequencies(value).Keys == Chars(value)
    ensures |Frequencies(value)| == UniqueCharacters(value)
    ensures forall c :: c in Frequencies(value) ==> Frequencies(value)[c] == Occurrences(value, c) >= 1
  {
    forall c | c in Frequencies(value)
      ensures Occurrences(value, c) >= 1
    {
      OccurrencesPositive(value, c);
    }
  }

  /** Summed over its keys, in any order and each once, the frequency map gives the length. */
  lemma FrequencyCountsSumToLength(value: string, keys: seq<char>)
    requires NoDuplicates(keys)
    requires forall c :: c in keys <==> c in Frequencies(value)
    ensures SumCounts(Frequencies(value), keys) == |value|
  {
    SumCountsOfFrequencies(value, keys);
    TotalOccurrencesIsLength(value, keys);
  }

  // ---------------------------------------------------------------------------------------
  // The analysis
  // ---------------------------------------------------------------------------------------

  /** What `analyzeString(value)` returns, given the digest function. */
  function Analysis(value: string, hash: string -> string): (p: Properties)
    ensures p.length == |value| && p.sha256Hash == hash(value)
    ensures p.uniqueCharacters <= p.length && p.wordCount <= p.length
    ensures p.characterFrequencyMap.Keys == Chars(value)
  {
    WordCountBounds(value);
    Properties(
      |value|, IsPalindrome(value), UniqueCharacters(value), WordCount(value), hash(value),
      Frequencies(value))
  }

  /** The relations among the properties of one analysis. */
  lemma AnalysisFacts(value: string, hash: string -> string)
    ensures var p := Analysis(value, hash);
      && p.length == |value|
      && p.sha256Hash == hash(value)
      && p.isPalindrome == IsPalindrome(Reverse(value))
      && p.uniqueCharacters <= p.length
      && (p.uniqueCharacters == 0 <==> value == [])
      && p.wordCount == RunCount(value, false) <= p.length
      && |p.characterFrequencyMap| == p.uniqueCharacters
      && p.characterFrequencyMap.Keys == Chars(value)
  {
    PalindromeOfReverse(value);
    WordCountBounds(value);
    FrequencyMapKeys(value);
  }

  /** `analyzeString`: the frequency map is built by one pass that bumps one entry per
      character, as the source's `for…of` loop does. */
  method AnalyzeString(value: string, hash: string -> string) returns (p: Properties)
    ensures p == Analysis(value, hash)
  {
    var frequencies: map<char, nat> := map[];
    FrequenciesOfEmpty();
    assert value[..0] == [];
    for i := 0 to |value|
      invariant frequencies == Frequencies(value[..i])
    {
      var c := value[i];
      FrequenciesAppend(value[..i], c);
      assert value[..i + 1] == value[..i] + [c];
      frequencies := frequencies[c := (if c in frequencies then frequencies[c] else 0) + 1];
    }
    assert value[..|value|] == value;
    var length := |value|;
    var isPalindrome := IsPalindrome(value);
    var uniqueCharacters := UniqueCharacters(value);
    var wordCount := WordCount(value);
    var sha256Hash := hash(value);
    p := Properties(length, isPalindrome, uniqueCharacters, wordCount, sha256Hash, frequencies);
  }
}
