/**
 * The request handlers and the in-memory store they share. The store is an insertion-ordered
 * map from fingerprint to record; here it is the sequence of its values in insertion order,
 * each record's fingerprint being its key. Each handler is a method of `StringStore` and is
 * proved equal to a function of the old store (`Create`, `Delete`, `FilterByQuery`, `ListAll`);
 * the lemmas below are about those functions.
 */
module Store {
  import opened Wrappers
  import opened Text
  import opened Analyzer
  import opened Filters
  import opened NlQuery

  /** The `value` field of a request body: absent, present but not a string, or a string. */
  datatype BodyField = Absent | NotAString | AString(s: string)

  /** The five query parameters of the listing endpoint, each absent or a raw string. */
  datatype ListParams = ListParams(
    isPalindrome: Option<string>,
    minLength: Option<string>,
    maxLength: Option<string>,
    wordCount: Option<string>,
    containsCharacter: Option<string>)

  datatype ParamName = IsPalindromeParam | MinLengthParam | MaxLengthParam | WordCountParam | ContainsCharacterParam

  /** What a handler answers: one constructor per response the handlers send. */
  datatype Outcome =
    | Created(record: StringRecord)
    | MissingValue
    | InvalidValueType
    | AlreadyExists
    | MissingQuery
    | ConflictingFilters
    | Interpreted(data: seq<StringRecord>, count: nat, original: string, parsedFilters: FilterSet)
    | InvalidParameter(param: ParamName)
    | Listed(data: seq<StringRecord>, count: nat, filtersApplied: FilterSet)
    | NotFound
    | Deleted

  /** The HTTP status each outcome is sent with. */
  function StatusCode(o: Outcome): nat {
    match o
    case Created(_) => 201
    case MissingValue => 400
    case InvalidValueType => 422
    case AlreadyExists => 409
    case MissingQuery => 400
    case ConflictingFilters => 422
    case Interpreted(_, _, _, _) => 200
    case InvalidParameter(_) => 400
    case Listed(_, _, _) => 200
    case NotFound => 404
    case Deleted => 204
  }

  /** The answer of a handler together with the store it leaves behind. */
  datatype Step = Step(outcome: Outcome, records: seq<StringRecord>)

  // ---------------------------------------------------------------------------------------
  // The store's invariant
  // ---------------------------------------------------------------------------------------

  /** A stored record is keyed by its value's fingerprint and carries that value's analysis. */
  predicate WellFormed(r: StringRecord, hash: string -> string) {
    r.id == hash(r.value) && r.properties == Analysis(r.value, hash)
  }

  /** Map keys are unique. */
  predicate DistinctIds(rs: seq<StringRecord>) {
    forall a, b :: 0 <= a < b < |rs| ==> rs[a].id != rs[b].id
  }

  predicate ValidRecords(rs: seq<StringRecord>, hash: string -> string) {
    (forall k :: 0 <= k < |rs| ==> WellFormed(rs[k], hash)) && DistinctIds(rs)
  }

  /** `strings.has(id)` / `strings.get(id)`: the position of the record keyed `id`, if any. */
  function FindIndex(rs: seq<StringRecord>, id: string): (r: Option<nat>)
    ensures r.Some? ==> r.value < |rs| && rs[r.value].id == id
    ensures r.Some? ==> forall k :: 0 <= k < r.value ==> rs[k].id != id
    ensures r.None? <==> forall k :: 0 <= k < |rs| ==> rs[k].id != id
  {
    if rs == [] then None
    else if rs[0].id == id then Some(0)
    else match FindIndex(rs[1..], id)
      case None => None
      case Some(k) => Some(k + 1)
  }

  /** The entry added last is found when no earlier entry has its key. */
  lemma FindIndexOfAppended(rs: seq<StringRecord>, r: StringRecord)
    requires FindIndex(rs, r.id).None?
    ensures FindIndex(rs + [r], r.id) == Some(|rs|)
  {
    var t := rs + [r];
    assert t[|rs|].id == r.id;
  }

  // ---------------------------------------------------------------------------------------
  // createStr
  // ---------------------------------------------------------------------------------------

  /**
   * `createStr`: a missing value is rejected first, then a value that is not a string, then a
   * value whose fingerprint is already a key; otherwise the analysed record is added at the end.
   */
  function Create(rs: seq<StringRecord>, hash: string -> string, body: BodyField, createdAt: string): (s: Step)
    ensures s.outcome.Created? <==> body.AString? && FindIndex(rs, hash(body.s)).None?
    ensures s.outcome.Created? ==>
      && s.records == rs + [s.outcome.record]
      && s.outcome.record == StringRecord(hash(body.s), body.s, Analysis(body.s, hash), createdAt)
    ensures !s.outcome.Created? ==> s.records == rs
    ensures body.Absent? ==> s.outcome == MissingValue
    ensures body.NotAString? ==> s.outcome == InvalidValueType
    ensures body.AString? && FindIndex(rs, hash(body.s)).Some? ==> s.outcome == AlreadyExists
  {
    match body
    case Absent => Step(MissingValue, rs)
    case NotAString => Step(InvalidValueType, rs)
    case AString(value) =>
      var id := hash(value);
      if FindIndex(rs, id).Some? then Step(AlreadyExists, rs)
      else
        var record := StringRecord(id, value, Analysis(value, hash), createdAt);
        Step(Created(record), rs + [record])
  }

  /** Creating keeps the store's invariant. */
  lemma CreatePreservesValid(rs: seq<StringRecord>, hash: string -> string, body: BodyField, createdAt: string)
    requires ValidRecords(rs, hash)
    ensures ValidRecords(Create(rs, hash, body, createdAt).records, hash)
  {
    var s := Create(rs, hash, body, createdAt);
    if s.outcome.Created? {
      var t := s.records;
      assert forall k :: 0 <= k < |rs| ==> t[k] == rs[k];
      assert t[|rs|] == s.outcome.record;
      forall a, b | 0 <= a < b < |t|
        ensures t[a].id != t[b].id
      {
        if b == |rs| {
          assert t[a] == rs[a];
        }
      }
    }
  }

  /** Posting the same string twice: the second request conflicts and changes nothing. */
  lemma CreateTwiceConflicts(rs: seq<StringRecord>, hash: string -> string, value: string, t1: string, t2: string)
    ensures var s1 := Create(rs, hash, AString(value), t1);
      var s2 := Create(s1.records, hash, AString(value), t2);
      s2.outcome == AlreadyExists && s2.records == s1.records
  {
    var s1 := Create(rs, hash, AString(value), t1);
    if s1.outcome.Created? {
      FindIndexOfAppended(rs, s1.outcome.record);
    }
  }

  // ---------------------------------------------------------------------------------------
  // deleteStr
  // ---------------------------------------------------------------------------------------

  /** `deleteStr`: the record keyed by the value's fingerprint is removed, or nothing is found. */
  function Delete(rs: seq<StringRecord>, hash: string -> string, stringValue: string): (s: Step)
    ensures s.outcome == NotFound <==> FindIndex(rs, hash(stringValue)).None?
    ensures s.outcome == NotFound || s.outcome == Deleted
    ensures s.outcome == NotFound ==> s.records == rs
    ensures s.outcome == Deleted ==> |s.records| == |rs| - 1
    ensures s.outcome == Deleted ==>
      exists k :: 0 <= k < |rs| && rs[k].id == hash(stringValue) && s.records == rs[..k] + rs[k + 1..]
    ensures forall r :: r in rs && r.id != hash(stringValue) ==> r in s.records
    ensures forall r :: r in s.records ==> r in rs
  {
    match FindIndex(rs, hash(stringValue))
    case None => Step(NotFound, rs)
    case Some(k) =>
      var t := rs[..k] + rs[k + 1..];
      assert forall j :: 0 <= j < k ==> t[j] == rs[j];
      assert forall j :: k < j < |rs| ==> t[j - 1] == rs[j];
      Step(Deleted, t)
  }

  /** With unique keys, a deletion leaves no record under the deleted key. */
  lemma DeleteRemovesKey(rs: seq<StringRecord>, hash: string -> string, stringValue: string)
    requires DistinctIds(rs)
    ensures FindIndex(Delete(rs, hash, stringValue).records, hash(stringValue)).None?
  {
    var id := hash(stringValue);
    var s := Delete(rs, hash, stringValue);
    match FindIndex(rs, id)
    case None =>
    case Some(k) =>
      var t := s.records;
      assert t == rs[..k] + rs[k + 1..];
      forall j | 0 <= j < |t|
        ensures t[j].id != id
      {
        RemovedAt(rs, k, j);
      }
  }

  /** Where each remaining record sits after the one at `k` is removed. */
  lemma RemovedAt(rs: seq<StringRecord>, k: nat, j: nat)
    requires k < |rs| && j < |rs| - 1
    ensures (rs[..k] + rs[k + 1..])[j] == rs[Skip(k, j)]
  {
  }

  /** The old position of the `j`-th record left after removing position `k`. */
  function Skip(k: nat, j: nat): nat {
    if j < k then j else j + 1
  }

  /** Deleting keeps the store's invariant. */
  lemma DeletePreservesValid(rs: seq<StringRecord>, hash: string -> string, stringValue: string)
    requires ValidRecords(rs, hash)
    ensures ValidRecords(Delete(rs, hash, stringValue).records, hash)
  {
    match FindIndex(rs, hash(stringValue))
    case None =>
    case Some(k) =>
      DeleteFoundRecords(rs, hash, stringValue, k);
      RemovalKeepsValid(rs, hash, k);
  }

  lemma DeleteFoundRecords(rs: seq<StringRecord>, hash: string -> string, stringValue: string, k: nat)
    requires FindIndex(rs, hash(stringValue)) == Some(k)
    ensures Delete(rs, hash, stringValue).records == rs[..k] + rs[k + 1..]
  {
  }

  lemma RemovalKeepsValid(rs: seq<StringRecord>, hash: string -> string, k: nat)
    requires ValidRecords(rs, hash) && k < |rs|
    ensures ValidRecords(rs[..k] + rs[k + 1..], hash)
  {
    var t := rs[..k] + rs[k + 1..];
    forall j | 0 <= j < |t|
      ensures WellFormed(t[j], hash)
    {
      RemovedAt(rs, k, j);
    }
    forall a, b | 0 <= a < b < |t|
      ensures t[a].id != t[b].id
    {
      RemovedAt(rs, k, a);
      RemovedAt(rs, k, b);
      assert Skip(k, a) < Skip(k, b);
    }
  }

  /** A deleted string can be created again. */
  lemma DeleteThenCreate(rs: seq<StringRecord>, hash: string -> string, value: string, createdAt: string)
    requires DistinctIds(rs)
    ensures Create(Delete(rs, hash, value).records, hash, AString(value), createdAt).outcome.Created?
  {
    DeleteRemovesKey(rs, hash, value);
  }

  /** Deleting the same string twice: the second request finds nothing. */
  lemma DeleteTwiceNotFound(rs: seq<StringRecord>, hash: string -> string, value: string)
    requires DistinctIds(rs)
    ensures var s1 := Delete(rs, hash, value);
      Delete(s1.records, hash, value) == Step(NotFound, s1.records)
  {
    DeleteRemovesKey(rs, hash, value);
  }

  /** Deleting what was just created gives back the store as it was. */
  lemma CreateThenDeleteRestores(rs: seq<StringRecord>, hash: string -> string, value: string, createdAt: string)
    requires Create(rs, hash, AString(value), createdAt).outcome.Created?
    ensures var s := Delete(Create(rs, hash, AString(value), createdAt).records, hash, value);
      s.outcome == Deleted && s.records == rs
  {
    var s1 := Create(rs, hash, AString(value), createdAt);
    FindIndexOfAppended(rs, s1.outcome.record);
    assert (rs + [s1.outcome.record])[..|rs|] == rs;
  }

  // ---------------------------------------------------------------------------------------
  // filterByNaturalLanguage
  // ---------------------------------------------------------------------------------------

  /** JavaScript truthiness of an optional number: present and not 0. */
  predicate Truthy(n: Option<int>) {
    n.Some? && n.value != 0
  }

  /**
   * The handler's conflict test, as written: both bounds truthy and the minimum larger. A
   * filter set it rejects is one that no record could satisfy.
   */
  predicate Conflicting(f: FilterSet)
    ensures Conflicting(f) ==> forall item :: !Keeps(f, item)
  {
    f.minLength.Some? && Truthy(f.maxLength) && f.minLength.value != 0 && f.minLength.value > f.maxLength.value
  }

  /** `filterByNaturalLanguage`: a missing or empty query, a conflicting translation, or the matches. */
  function FilterByQuery(rs: seq<StringRecord>, query: Option<string>): (o: Outcome)
    ensures o == MissingQuery <==> query.None? || query == Some("")
    ensures o.Interpreted? ==>
      && o.original == query.value
      && o.parsedFilters == Translate(query.value)
      && o.data == ApplyFilters(rs, o.parsedFilters)
      && o.count == |o.data|
    ensures o == MissingQuery || o == ConflictingFilters || o.Interpreted?
  {
    if query.None? || query.value == "" then MissingQuery
    else
      var f := Translate(query.value);
      if Conflicting(f) then ConflictingFilters
      else
        var data := ApplyFilters(rs, f);
        Interpreted(data, |data|, query.value, f)
  }

  /**
   * In terms of the query: the conflict answer comes exactly when the query has both bounds,
   * the derived maximum is not 0 and the derived minimum exceeds it.
   */
  lemma ConflictIff(rs: seq<StringRecord>, query: string)
    requires query != ""
    ensures var f := Translate(query);
      FilterByQuery(rs, Some(query)) == ConflictingFilters <==>
        f.minLength.Some? && f.maxLength.Some? && f.maxLength.value != 0 && f.minLength.value > f.maxLength.value
  {
  }

  /** A conflicting query is one no string could match. */
  lemma ConflictOnlyWhenNothingMatches(rs: seq<StringRecord>, query: string)
    requires FilterByQuery(rs, Some(query)) == ConflictingFilters
    ensures ApplyFilters(rs, Translate(query)) == []
  {
    MinAboveMaxKeepsNothing(rs, Translate(query));
  }

  /**
   * A derived maximum of 0 is falsy, so a query with a minimum and "shorter than 1" is not
   * reported as a conflict: it is answered with an empty match list.
   */
  lemma ZeroMaximumSlipsThrough(rs: seq<StringRecord>, query: string)
    requires query != ""
    requires Translate(query).minLength.Some? && Translate(query).maxLength == Some(0)
    ensures FilterByQuery(rs, Some(query)) == Interpreted([], 0, query, Translate(query))
  {
    MinAboveMaxKeepsNothing(rs, Translate(query));
  }

  /** "longer than 10 shorter than 5" asks for a minimum of 11 and a maximum of 4: a conflict. */
  lemma LongerAndShorterConflicts(rs: seq<StringRecord>, query: string)
    requires query == "longer than 10 shorter than 5"
    ensures FilterByQuery(rs, Some(query)) == ConflictingFilters
  {
    LongerAndShorterExample(query);
  }

  /** An instance: "longer than 3 shorter than 1" is answered with no matches, not a conflict. */
  lemma ZeroMaximumExample(rs: seq<StringRecord>, query: string)
    requires query == "longer than 3 shorter than 1"
    ensures FilterByQuery(rs, Some(query)).Interpreted?
    ensures FilterByQuery(rs, Some(query)).data == []
  {
    LongerThanThreeMinimum(query);
    ShorterThanOneMaximum(query);
    ZeroMaximumSlipsThrough(rs, query);
  }

  lemma SlicesOfLongerThanThree(query: string)
    requires query == "longer than 3 shorter than 1"
    ensures query[..12] == "longer than "
    ensures query[12..13] == "3"
    ensures query[14..27] == "shorter than "
    ensures query[27..28] == "1"
    ensures query[0..14] == "longer than 3 "
  {
  }

  lemma LongerThanThreeMinimum(query: string)
    requires query == "longer than 3 shorter than 1"
    ensures Translate(query).minLength == Some(4)
  {
    LongerThanThreeCapture(query);
    MinLengthFromCapture(query, 3);
  }

  lemma LongerThanThreeCapture(query: string)
    requires query == "longer than 3 shorter than 1"
    ensures CapturedNumber(LongerThanPattern, LowerAll(query)) == Some(3)
  {
    LongerThanThreeIsLowerCase(query);
    LongerThanThreeMatch(query);
    LongerThanCapture(query, 0, 1);
  }

  lemma LongerThanThreeMatch(query: string)
    requires query == "longer than 3 shorter than 1"
    ensures NumberMatch("longer than ", query, 0, 1)
  {
    SlicesOfLongerThanThree(query);
  }

  lemma LongerThanThreeIsLowerCase(query: string)
    requires query == "longer than 3 shorter than 1"
    ensures LowerAll(query) == query
  {
    LowerAllOfLowerCase(query);
  }

  lemma ShorterThanOneMaximum(query: string)
    requires query == "longer than 3 shorter than 1"
    ensures Translate(query).maxLength == Some(0)
  {
    ShorterThanOneCapture(query);
    MaxLengthFromCapture(query, 1);
  }

  lemma ShorterThanOneCapture(query: string)
    requires query == "longer than 3 shorter than 1"
    ensures CapturedNumber(ShorterThanPattern, LowerAll(query)) == Some(1)
  {
    LongerThanThreeIsLowerCase(query);
    ShorterThanOneMatch(query);
    ShorterThanCapture(query, 14, 1);
  }

  lemma ShorterThanOneMatch(query: string)
    requires query == "longer than 3 shorter than 1"
    ensures NumberMatch("shorter than ", query, 14, 1)
    ensures forall j :: 0 <= j < 14 ==> MatchAt(ShorterThanPattern, query, j).None?
  {
    SlicesOfLongerThanThree(query);
    NoMatchBetween(ShorterThanPattern, query, 0, 14);
  }

  // ---------------------------------------------------------------------------------------
  // getAllStrs
  // ---------------------------------------------------------------------------------------

  /** `is_palindrome`: "true" or "false" in any letter case. */
  function ParsePalindromeParam(s: string): (r: Option<bool>)
    ensures r.Some? ==> |s| == if r.value then 4 else 5
    ensures r == Some(true) <==> LowerAll(s) == "true"
    ensures r == Some(false) <==> LowerAll(s) == "false"
  {
    var v := LowerAll(s);
    if v == "true" then Some(true)
    else if v == "false" then Some(false)
    else None
  }

  /** A numeric parameter: `parseInt` must give a number that is not negative. */
  function ParseCountParam(s: string): (r: Option<nat>)
    ensures r.Some? <==> ParseInt(s).Some? && ParseInt(s).value >= 0
    ensures r.Some? ==> r.value == ParseInt(s).value
  {
    match ParseInt(s)
    case None => None
    case Some(v) => if v < 0 then None else Some(v as nat)
  }

  /** `contains_character`: exactly one character. */
  function ParseCharParam(s: string): (r: Option<char>)
    ensures r.Some? <==> |s| == 1
    ensures r.Some? ==> r.value in s
  {
    if |s| == 1 then Some(s[0]) else None
  }

  /** The outcome of validating the listing parameters: the first bad one, or the filter set. */
  datatype Validated = Rejected(param: ParamName) | Accepted(filters: FilterSet)

  /** A parameter is acceptable when it is absent or its parser gives a value. */
  predicate ParamOk(p: ListParams, n: ParamName) {
    match n
    case IsPalindromeParam => p.isPalindrome.None? || ParsePalindromeParam(p.isPalindrome.value).Some?
    case MinLengthParam => p.minLength.None? || ParseCountParam(p.minLength.value).Some?
    case MaxLengthParam => p.maxLength.None? || ParseCountParam(p.maxLength.value).Some?
    case WordCountParam => p.wordCount.None? || ParseCountParam(p.wordCount.value).Some?
    case ContainsCharacterParam => p.containsCharacter.None? || ParseCharParam(p.containsCharacter.value).Some?
  }

  /** The parsed value of each optional parameter; absent stays absent. */
  function PalindromeValue(p: Option<string>): Option<bool> {
    if p.None? then None else ParsePalindromeParam(p.value)
  }

  function CountValue(p: Option<string>): Option<nat> {
    if p.None? then None else ParseCountParam(p.value)
  }

  function LengthValue(p: Option<string>): Option<int> {
    var n := CountValue(p);
    if n.None? then None else Some(n.value as int)
  }

  function CharValue(p: Option<string>): Option<char> {
    if p.None? then None else ParseCharParam(p.value)
  }

  /** The parameters are checked in the handler's order; the first bad one is reported. */
  function ValidateParams(p: ListParams): (r: Validated)
    ensures r.Accepted? ==> forall n: ParamName :: ParamOk(p, n)
    ensures r.Rejected? ==> !ParamOk(p, r.param)
  {
    if !ParamOk(p, IsPalindromeParam) then Rejected(IsPalindromeParam)
    else if !ParamOk(p, MinLengthParam) then Rejected(MinLengthParam)
    else if !ParamOk(p, MaxLengthParam) then Rejected(MaxLengthParam)
    else if !ParamOk(p, WordCountParam) then Rejected(WordCountParam)
    else if !ParamOk(p, ContainsCharacterParam) then Rejected(ContainsCharacterParam)
    else
      Accepted(FilterSet(PalindromeValue(p.isPalindrome), CountValue(p.minLength),
        LengthValue(p.maxLength), CountValue(p.wordCount), CharValue(p.containsCharacter)))
  }

  predicate AllParamsOk(p: ListParams) {
    forall n: ParamName :: ParamOk(p, n)
  }

  /** The position of each parameter in the handler's checking order. */
  function Rank(n: ParamName): nat {
    match n
    case IsPalindromeParam => 0
    case MinLengthParam => 1
    case MaxLengthParam => 2
    case WordCountParam => 3
    case ContainsCharacterParam => 4
  }

  /** Validation succeeds exactly when every parameter is absent or well formed. */
  lemma ValidateAcceptsIff(p: ListParams)
    ensures ValidateParams(p).Accepted? <==> AllParamsOk(p)
  {
    if ValidateParams(p).Accepted? {
      forall n: ParamName
        ensures ParamOk(p, n)
      {
        match n
        case IsPalindromeParam =>
        case MinLengthParam =>
        case MaxLengthParam =>
        case WordCountParam =>
        case ContainsCharacterParam =>
      }
    }
  }

  /** A rejection names a bad parameter, and every parameter checked before it was fine. */
  lemma ValidateRejectsFirstBad(p: ListParams)
    requires ValidateParams(p).Rejected?
    ensures var n := ValidateParams(p).param;
      !ParamOk(p, n) &&
      forall m: ParamName :: Rank(m) < Rank(n) ==> ParamOk(p, m)
  {
  }

  /** The filter set holds exactly the supplied parameters, each with its parsed value. */
  lemma ValidateKeepsSuppliedFields(p: ListParams)
    requires ValidateParams(p).Accepted?
    ensures var f := ValidateParams(p).filters;
      && (f.isPalindrome.Some? <==> p.isPalindrome.Some?)
      && (f.minLength.Some? <==> p.minLength.Some?)
      && (f.maxLength.Some? <==> p.maxLength.Some?)
      && (f.wordCount.Some? <==> p.wordCount.Some?)
      && (f.containsCharacter.Some? <==> p.containsCharacter.Some?)
      && (p.isPalindrome.Some? ==> Some(f.isPalindrome.value) == ParsePalindromeParam(p.isPalindrome.value))
      && (p.minLength.Some? ==> f.minLength.value == ParseInt(p.minLength.value).value)
      && (p.maxLength.Some? ==> f.maxLength.value == ParseInt(p.maxLength.value).value)
      && (p.wordCount.Some? ==> f.wordCount.value == ParseInt(p.wordCount.value).value)
      && (p.containsCharacter.Some? ==> [f.containsCharacter.value] == p.containsCharacter.value)
  {
    var f := ValidateParams(p).filters;
    if p.containsCharacter.Some? {
      var s := p.containsCharacter.value;
      assert |s| == 1;
      assert [s[0]] == s;
    }
  }

  /** No parameters: every stored string is listed. */
  lemma NoParamsListsEverything(rs: seq<StringRecord>)
    ensures ListAll(rs, ListParams(None, None, None, None, None)) == Listed(rs, |rs|, NoFilters)
  {
    NoFiltersKeepEverything(rs);
  }

  /** `getAllStrs`: a parameter error, or the filtered list with the filters used. */
  function ListAll(rs: seq<StringRecord>, p: ListParams): (o: Outcome)
    ensures o.InvalidParameter? <==> !AllParamsOk(p)
    ensures o.Listed? ==> o.filtersApplied == ValidateParams(p).filters
    ensures o.Listed? ==> o.data == ApplyFilters(rs, o.filtersApplied) && o.count == |o.data|
    ensures o.InvalidParameter? || o.Listed?
  {
    match ValidateParams(p)
    case Rejected(n) => InvalidParameter(n)
    case Accepted(f) =>
      var data := ApplyFilters(rs, f);
      Listed(data, |data|, f)
  }

  /** The letter case of `is_palindrome` does not matter, and other words are rejected. */
  lemma PalindromeParamExamples()
    ensures ParsePalindromeParam("TRUE") == Some(true)
    ensures ParsePalindromeParam("False") == Some(false)
    ensures ParsePalindromeParam("yes") == None
  {
    assert LowerAll("TRUE") == "true";
    assert LowerAll("False") == "false";
    assert LowerAll("yes")[0] == 'y';
  }

  /** The handler's checks of the query parameters, one after another, building the filter set. */
  method ValidateListParams(params: ListParams) returns (v: Validated)
    ensures v == ValidateParams(params)
  {
    var palindrome: Option<bool> := None;
    if params.isPalindrome.Some? {
      palindrome := ParsePalindromeParam(params.isPalindrome.value);
      if palindrome.None? {
        assert !ParamOk(params, IsPalindromeParam);
        return Rejected(IsPalindromeParam);
      }
    }
    assert ParamOk(params, IsPalindromeParam) && palindrome == PalindromeValue(params.isPalindrome);
    var minLength: Option<nat> := None;
    if params.minLength.Some? {
      minLength := ParseCountParam(params.minLength.value);
      if minLength.None? {
        assert !ParamOk(params, MinLengthParam);
        return Rejected(MinLengthParam);
      }
    }
    assert ParamOk(params, MinLengthParam) && minLength == CountValue(params.minLength);
    var maxLength: Option<int> := None;
    if params.maxLength.Some? {
      var parsed := ParseCountParam(params.maxLength.value);
      if parsed.None? {
        assert !ParamOk(params, MaxLengthParam);
        return Rejected(MaxLengthParam);
      }
      maxLength := Some(parsed.value as int);
    }
    assert ParamOk(params, MaxLengthParam) && maxLength == LengthValue(params.maxLength);
    var wordCount: Option<nat> := None;
    if params.wordCount.Some? {
      wordCount := ParseCountParam(params.wordCount.value);
      if wordCount.None? {
        assert !ParamOk(params, WordCountParam);
        return Rejected(WordCountParam);
      }
    }
    assert ParamOk(params, WordCountParam) && wordCount == CountValue(params.wordCount);
    var character: Option<char> := None;
    if params.containsCharacter.Some? {
      character := ParseCharParam(params.containsCharacter.value);
      if character.None? {
        assert !ParamOk(params, ContainsCharacterParam);
        return Rejected(ContainsCharacterParam);
      }
    }
    assert ParamOk(params, ContainsCharacterParam) && character == CharValue(params.containsCharacter);
    v := Accepted(FilterSet(palindrome, minLength, maxLength, wordCount, character));
  }

  // ---------------------------------------------------------------------------------------
  // The store object
  // ---------------------------------------------------------------------------------------

  /** The module-level map `strings` together with the digest function used for its keys. */
  class StringStore {
    const hash: string -> string
    var records: seq<StringRecord>

    predicate Valid()
      reads this
    {
      ValidRecords(records, hash)
    }

    constructor (hash: string -> string)
      ensures Valid() && this.hash == hash && records == []
    {
      this.hash := hash;
      records := [];
    }

    /** POST: validate the body, reject a known fingerprint, else analyse and store. */
    method CreateStr(body: BodyField, createdAt: string) returns (outcome: Outcome)
      requires Valid()
      modifies this
      ensures Valid()
      ensures Step(outcome, records) == Create(old(records), hash, body, createdAt)
    {
      CreatePreservesValid(records, hash, body, createdAt);
      if body.Absent? {
        return MissingValue;
      }
      if body.NotAString? {
        return InvalidValueType;
      }
      var value := body.s;
      var id := hash(value);
      if FindIndex(records, id).Some? {
        return AlreadyExists;
      }
      var properties := AnalyzeString(value, hash);
      var record := StringRecord(id, value, properties, createdAt);
      records := records + [record];
      outcome := Created(record);
    }

    /** DELETE: remove the record keyed by the value's fingerprint. */
    method DeleteStr(stringValue: string) returns (outcome: Outcome)
      requires Valid()
      modifies this
      ensures Valid()
      ensures Step(outcome, records) == Delete(old(records), hash, stringValue)
    {
      DeletePreservesValid(records, hash, stringValue);
      var id := hash(stringValue);
      var k := FindIndex(records, id);
      if k.None? {
        return NotFound;
      }
      records := records[..k.value] + records[k.value + 1..];
      outcome := Deleted;
    }

    /** GET by natural language: translate, refuse a conflict, filter the stored values. */
    method FilterByNaturalLanguage(query: Option<string>) returns (outcome: Outcome)
      ensures outcome == FilterByQuery(records, query)
    {
      if query.None? || query.value == "" {
        return MissingQuery;
      }
      var parsed := ParseNaturalLanguage(query.value);
      if parsed.minLength.Some? && parsed.minLength.value != 0
        && parsed.maxLength.Some? && parsed.maxLength.value != 0
        && parsed.minLength.value > parsed.maxLength.value
      {
        return ConflictingFilters;
      }
      var data := ApplyFilters(records, parsed);
      outcome := Interpreted(data, |data|, query.value, parsed);
    }

    /** GET with query parameters: validate each in turn, then filter the stored values. */
    method GetAllStrs(params: ListParams) returns (outcome: Outcome)
      ensures outcome == ListAll(records, params)
    {
      var v := ValidateListParams(params);
      match v
      case Rejected(n) =>
        outcome := InvalidParameter(n);
      case Accepted(filters) =>
        var data := ApplyFilters(records, filters);
        outcome := Listed(data, |data|, filters);
    }
  }
}
