/**
 * The filter evaluator: the records a filter set keeps, in their original order.
 */
module Filters {
  import opened Wrappers
  import opened Text
  import opened Analyzer

  /** A stored string: its fingerprint, the text itself, its analysis and when it was added. */
  datatype StringRecord = StringRecord(
    id: string,
    value: string,
    properties: Properties,
    createdAt: string)

  /**
   * A filter set; `None` is an absent constraint. `maxLength` is an `int` because the
   * translator produces -1 for "shorter than 0".
   */
  datatype FilterSet = FilterSet(
    isPalindrome: Option<bool>,
    minLength: Option<nat>,
    maxLength: Option<int>,
    wordCount: Option<nat>,
    containsCharacter: Option<char>)

  const NoFilters := FilterSet(None, None, None, None, None)

  // The five constraints, each on its own; an absent one always holds.

  predicate PalindromeHolds(f: FilterSet, item: StringRecord) {
    f.isPalindrome.Some? ==> item.properties.isPalindrome == f.isPalindrome.value
  }

  predicate MinLengthHolds(f: FilterSet, item: StringRecord) {
    f.minLength.Some? ==> item.properties.length >= f.minLength.value
  }

  predicate MaxLengthHolds(f: FilterSet, item: StringRecord) {
    f.maxLength.Some? ==> item.properties.length <= f.maxLength.value
  }

  predicate WordCountHolds(f: FilterSet, item: StringRecord) {
    f.wordCount.Some? ==> item.properties.wordCount == f.wordCount.value
  }

  /** Case-sensitive containment in the raw text, not in any derived property. */
  predicate ContainsHolds(f: FilterSet, item: StringRecord) {
    f.containsCharacter.Some? ==> f.containsCharacter.value in item.value
  }

  predicate SatisfiesAll(f: FilterSet, item: StringRecord) {
    && PalindromeHolds(f, item)
    && MinLengthHolds(f, item)
    && MaxLengthHolds(f, item)
    && WordCountHolds(f, item)
    && ContainsHolds(f, item)
  }

  /**
   * The callback given to `filter`: one early-rejecting guard per constraint, in order. The
   * chain keeps a record exactly when every present constraint holds.
   */
  predicate Keeps(f: FilterSet, item: StringRecord)
    ensures Keeps(f, item) <==> SatisfiesAll(f, item)
  {
    if f.isPalindrome.Some? && item.properties.isPalindrome != f.isPalindrome.value then false
    else if f.minLength.Some? && item.properties.length < f.minLength.value then false
    else if f.maxLength.Some? && item.properties.length > f.maxLength.value then false
    else if f.wordCount.Some? && item.properties.wordCount != f.wordCount.value then false
    else if f.containsCharacter.Some? && f.containsCharacter.value !in item.value then false
    else true
  }

  /** `stringsArray.filter(...)`: never longer than the input, and only records it keeps. */
  function ApplyFilters(records: seq<StringRecord>, f: FilterSet): (r: seq<StringRecord>)
    ensures |r| <= |records|
    ensures forall i :: 0 <= i < |r| ==> Keeps(f, r[i])
  {
    if records == [] then []
    else
      var last := records[|records| - 1];
      var prefix := records[..|records| - 1];
      ApplyFilters(prefix, f) + (if Keeps(f, last) then [last] else [])
  }

  /** The positions of the records that `f` keeps, in increasing order. */
  function MatchingIndices(records: seq<StringRecord>, f: FilterSet): seq<nat> {
    if records == [] then []
    else
      var n := |records| - 1;
      MatchingIndices(records[..n], f) + (if Keeps(f, records[n]) then [n] else [])
  }

  /**
   * The result is the input restricted to the positions whose record satisfies the filter
   * set: those positions in increasing order, and every such position.
   */
  lemma {:induction false} ApplyFiltersSelects(records: seq<StringRecord>, f: FilterSet)
    ensures var r, idx := ApplyFilters(records, f), MatchingIndices(records, f);
      && |r| == |idx|
      && (forall k :: 0 <= k < |idx| ==> idx[k] < |records| && r[k] == records[idx[k]])
      && (forall k, l :: 0 <= k < l < |idx| ==> idx[k] < idx[l])
      && (forall i :: 0 <= i < |records| ==> (i in idx <==> SatisfiesAll(f, records[i])))
  {
    if records != [] {
      var n := |records| - 1;
      ApplyFiltersSelects(records[..n], f);
      var idx := MatchingIndices(records[..n], f);
      assert forall k :: 0 <= k < |idx| ==> idx[k] < n;
      assert n !in idx;
      assert forall i :: 0 <= i < n ==> records[..n][i] == records[i];
    }
  }

  /** A record is in the result exactly when it is in the input and satisfies the filters. */
  lemma {:induction false} ApplyFiltersMembership(records: seq<StringRecord>, f: FilterSet, x: StringRecord)
    ensures x in ApplyFilters(records, f) <==> x in records && SatisfiesAll(f, x)
  {
    if records != [] {
      var n := |records| - 1;
      assert records == records[..n] + [records[n]];
      ApplyFiltersMembership(records[..n], f, x);
    }
  }

  /** `a` is `b` with some elements left out, the rest kept in order. */
  predicate IsSubsequence<T(==)>(a: seq<T>, b: seq<T>)
    decreases |b|
  {
    if a == [] then true
    else if b == [] then false
    else if a[|a| - 1] == b[|b| - 1] then IsSubsequence(a[..|a| - 1], b[..|b| - 1])
    else IsSubsequence(a, b[..|b| - 1])
  }

  lemma {:induction false} SubsequenceLength<T>(a: seq<T>, b: seq<T>)
    requires IsSubsequence(a, b)
    ensures |a| <= |b|
    decreases |b|
  {
    if a != [] {
      if a[|a| - 1] == b[|b| - 1] {
        SubsequenceLength(a[..|a| - 1], b[..|b| - 1]);
      } else {
        SubsequenceLength(a, b[..|b| - 1]);
      }
    }
  }

  /** A filter set that keeps every record of the input returns the input unchanged. */
  lemma {:induction false} ApplyFiltersKeepsAll(records: seq<StringRecord>, f: FilterSet)
    requires forall i :: 0 <= i < |records| ==> Keeps(f, records[i])
    ensures ApplyFilters(records, f) == records
  {
    if records != [] {
      var n := |records| - 1;
      ApplyFiltersKeepsAll(records[..n], f);
      assert records == records[..n] + [records[n]];
    }
  }

  /** With no constraint at all, every record is returned, in order. */
  lemma NoFiltersKeepEverything(records: seq<StringRecord>)
    ensures ApplyFilters(records, NoFilters) == records
  {
    ApplyFiltersKeepsAll(records, NoFilters);
  }

  /** Filtering the result again with the same filter set changes nothing. */
  lemma ApplyFiltersIdempotent(records: seq<StringRecord>, f: FilterSet)
    ensures ApplyFilters(ApplyFilters(records, f), f) == ApplyFilters(records, f)
  {
    var r := ApplyFilters(records, f);
    forall i | 0 <= i < |r|
      ensures Keeps(f, r[i])
    {
      ApplyFiltersMembership(records, f, r[i]);
    }
    ApplyFiltersKeepsAll(r, f);
  }

  /** `g` has every constraint of `f`, with the same value, and possibly more. */
  predicate Narrows(g: FilterSet, f: FilterSet) {
    && (f.isPalindrome.Some? ==> g.isPalindrome == f.isPalindrome)
    && (f.minLength.Some? ==> g.minLength == f.minLength)
    && (f.maxLength.Some? ==> g.maxLength == f.maxLength)
    && (f.wordCount.Some? ==> g.wordCount == f.wordCount)
    && (f.containsCharacter.Some? ==> g.containsCharacter == f.containsCharacter)
  }

  /** Adding constraints never adds records: the narrower result is a subsequence of the
      wider one. */
  lemma {:induction false} NarrowerFiltersKeepFewer(records: seq<StringRecord>, f: FilterSet, g: FilterSet)
    requires Narrows(g, f)
    ensures IsSubsequence(ApplyFilters(records, g), ApplyFilters(records, f))
  {
    if records != [] {
      var n := |records| - 1;
      var x := records[n];
      var a, b := ApplyFilters(records[..n], g), ApplyFilters(records[..n], f);
      NarrowerFiltersKeepFewer(records[..n], f, g);
      if Keeps(g, x) {
        assert Keeps(f, x);
        assert (a + [x])[..|a|] == a && (b + [x])[..|b|] == b;
      } else if Keeps(f, x) {
        assert ApplyFilters(records, g) == a + [] == a;
        assert ApplyFilters(records, f) == b + [x];
        if a != [] {
          ApplyFiltersMembership(records[..n], g, a[|a| - 1]);
          assert a[|a| - 1] != x;
          assert (b + [x])[..|b|] == b;
          assert IsSubsequence(a, b + [x]) == IsSubsequence(a, b);
        } else {
          assert IsSubsequence(a, b + [x]);
        }
      } else {
        assert ApplyFilters(records, g) == a + [] == a;
        assert ApplyFilters(records, f) == b + [] == b;
      }
    }
  }

  /** The result is a subsequence of the input, so never longer than it. */
  lemma ApplyFiltersIsSubsequence(records: seq<StringRecord>, f: FilterSet)
    ensures IsSubsequence(ApplyFilters(records, f), records)
    ensures |ApplyFilters(records, f)| <= |records|
  {
    NoFiltersKeepEverything(records);
    NarrowerFiltersKeepFewer(records, NoFilters, f);
    SubsequenceLength(ApplyFilters(records, f), records);
  }

  /** A minimum length above the maximum length keeps nothing; the evaluator does not report it. */
  lemma {:induction false} MinAboveMaxKeepsNothing(records: seq<StringRecord>, f: FilterSet)
    requires f.minLength.Some? && f.maxLength.Some? && f.minLength.value > f.maxLength.value
    ensures ApplyFilters(records, f) == []
  {
    if records != [] {
      MinAboveMaxKeepsNothing(records[..|records| - 1], f);
      assert !Keeps(f, records[|records| - 1]);
    }
  }

  /** "abba" and "hello" filtered by {is_palindrome: true, min_length: 3} leave only "abba". */
  lemma PalindromeAndLengthExample(abba: StringRecord, hello: StringRecord, hash: string -> string)
    requires abba.value == "abba" && abba.properties == Analysis(abba.value, hash)
    requires hello.value == "hello" && hello.properties == Analysis(hello.value, hash)
    ensures ApplyFilters([abba, hello], FilterSet(Some(true), Some(3), None, None, None)) == [abba]
  {
    KeepsAbba(abba, hash);
    DropsHello(hello, hash);
    ApplyFiltersOfPair(abba, hello, FilterSet(Some(true), Some(3), None, None, None));
  }

  lemma KeepsAbba(abba: StringRecord, hash: string -> string)
    requires abba.value == "abba" && abba.properties == Analysis(abba.value, hash)
    ensures Keeps(FilterSet(Some(true), Some(3), None, None, None), abba)
  {
    AbbaIsPalindrome();
  }

  lemma DropsHello(hello: StringRecord, hash: string -> string)
    requires hello.value == "hello" && hello.properties == Analysis(hello.value, hash)
    ensures !Keeps(FilterSet(Some(true), Some(3), None, None, None), hello)
  {
    HelloIsNotPalindrome();
  }

  /** Filtering two records when the first is kept and the second is not. */
  lemma ApplyFiltersOfPair(x: StringRecord, y: StringRecord, f: FilterSet)
    requires Keeps(f, x) && !Keeps(f, y)
    ensures ApplyFilters([x, y], f) == [x]
  {
    var rs := [x, y];
    assert rs[|rs| - 1] == y;
    assert rs[..|rs| - 1] == [x];
    assert ApplyFilters(rs, f) == ApplyFilters([x], f);
    assert [x][..0] == [];
    assert ApplyFilters([x], f) == ApplyFilters([], f) + [x];
  }

  lemma AbbaIsPalindrome()
    ensures IsPalindrome("abba")
  {
    assert LowerAll("abba") == "abba";
    assert "abba"[1..] == "bba" && "bba"[1..] == "ba" && "ba"[1..] == "a" && "a"[1..] == "";
    assert RemoveWhitespace("a") == "a";
    assert RemoveWhitespace("ba") == "ba";
    assert RemoveWhitespace("bba") == "bba";
    assert RemoveWhitespace("abba") == "abba";
    forall k | 0 <= k < 4
      ensures Reverse("abba")[k] == "abba"[k]
    {
      ReverseAt("abba", k);
    }
  }

  lemma HelloIsNotPalindrome()
    ensures !IsPalindrome("hello")
  {
    assert LowerAll("hello") == "hello";
    RemoveWhitespaceOfClean("hello");
    ReverseAt("hello", 0);
  }

  /** The character test is case-sensitive: 'h' does not match "Hello" although the palindrome
      check would fold the case. */
  lemma ContainsCharacterIsCaseSensitive(item: StringRecord)
    requires item.value == "Hello"
    ensures Lower('H') == 'h'
    ensures !Keeps(FilterSet(None, None, None, None, Some('h')), item)
    ensures Keeps(FilterSet(None, None, None, None, Some('H')), item)
  {
  }
}
