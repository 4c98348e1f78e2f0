/**
 * The pieces of the JavaScript string library that the service relies on, stated over
 * `string` (a sequence of `char`, one `char` per character): the `\s` class, `toLowerCase`,
 * `includes`, `split("").reverse()`, `trim` and `parseInt`.
 */
module Text {
  import opened Wrappers

  /** The characters of JavaScript's `\s` class (ECMAScript WhiteSpace and LineTerminator);
      `trim` and `parseInt` skip exactly the same set. */
  predicate IsWhitespace(c: char) {
    || c == ' ' || c == '\t' || c == '\n' || c == '\U{B}' || c == '\U{C}' || c == '\r'
    || c == '\U{A0}' || c == '\U{1680}' || ('\U{2000}' <= c <= '\U{200A}')
    || c == '\U{2028}' || c == '\U{2029}' || c == '\U{202F}' || c == '\U{205F}'
    || c == '\U{3000}' || c == '\U{FEFF}'
  }

  /** JavaScript's `\d`: the ASCII digits only. */
  predicate IsDigit(c: char) {
    '0' <= c <= '9'
  }

  /** The regex class `[a-z]`. */
  predicate IsLowerLetter(c: char) {
    'a' <= c <= 'z'
  }

  /** `toLowerCase` on one character; only the ASCII letters are mapped. */
  function Lower(c: char): (r: char)
    ensures IsLowerLetter(r) <==> IsLowerLetter(c) || 'A' <= c <= 'Z'
    ensures !('A' <= c <= 'Z') ==> r == c
  {
    if 'A' <= c <= 'Z' then (c as int - 'A' as int + 'a' as int) as char else c
  }

  lemma LowerIdempotent(c: char)
    ensures Lower(Lower(c)) == Lower(c)
  {
  }

  /** `s.toLowerCase()`, one character at a time. */
  function LowerAll(s: string): (r: string)
    ensures |r| == |s|
    ensures forall i :: 0 <= i < |s| ==> r[i] == Lower(s[i])
  {
    seq(|s|, i requires 0 <= i < |s| => Lower(s[i]))
  }

  /** Lower-casing an already lower-cased text changes nothing. */
  lemma LowerAllIdempotent(s: string)
    ensures LowerAll(LowerAll(s)) == LowerAll(s)
  {
    forall i | 0 <= i < |s|
      ensures LowerAll(LowerAll(s))[i] == LowerAll(s)[i]
    {
      LowerIdempotent(s[i]);
    }
  }

  /** A text without capital ASCII letters is its own lower-case form. */
  lemma LowerAllOfLowerCase(s: string)
    requires forall c :: c in s ==> !('A' <= c <= 'Z')
    ensures LowerAll(s) == s
  {
    forall i | 0 <= i < |s|
      ensures LowerAll(s)[i] == s[i]
    {
      assert s[i] in s;
    }
  }

  /** `pattern` occurs in `s` starting at position `i`. */
  predicate OccursAt(s: string, i: nat, pattern: string) {
    i + |pattern| <= |s| && s[i..i + |pattern|] == pattern
  }

  /** `s.includes(pattern)`. */
  predicate Contains(s: string, pattern: string)
    decreases |s|
  {
    pattern <= s || (s != [] && Contains(s[1..], pattern))
  }

  /** `includes` holds exactly when the pattern occurs at some position. */
  lemma ContainsIffOccurs(s: string, pattern: string)
    ensures Contains(s, pattern) <==> exists i: nat :: OccursAt(s, i, pattern)
  {
    if Contains(s, pattern) {
      var i := ContainsHasPosition(s, pattern);
    }
    forall i: nat | OccursAt(s, i, pattern)
      ensures Contains(s, pattern)
    {
      OccursGivesContains(s, pattern, i);
    }
  }

  /** A position at which a contained pattern occurs. */
  lemma {:induction false} ContainsHasPosition(s: string, pattern: string) returns (i: nat)
    requires Contains(s, pattern)
    ensures OccursAt(s, i, pattern)
    decreases |s|
  {
    if pattern <= s {
      i := 0;
      assert s[..|pattern|] == pattern;
    } else {
      var j := ContainsHasPosition(s[1..], pattern);
      i := j + 1;
      assert s[1..][j..j + |pattern|] == s[i..i + |pattern|];
    }
  }

  /** An occurrence at any position makes the pattern contained. */
  lemma {:induction false} OccursGivesContains(s: string, pattern: string, i: nat)
    requires OccursAt(s, i, pattern)
    ensures Contains(s, pattern)
    decreases i
  {
    if i == 0 {
      assert pattern <= s;
    } else {
      assert s[1..][i - 1..i - 1 + |pattern|] == s[i..i + |pattern|];
      OccursGivesContains(s[1..], pattern, i - 1);
    }
  }

  /** A text containing `pattern` contains every part of `pattern`. */
  lemma ContainsPart(s: string, pattern: string, part: string, k: nat)
    requires Contains(s, pattern)
    requires OccursAt(pattern, k, part)
    ensures Contains(s, part)
  {
    ContainsIffOccurs(s, pattern);
    var i: nat :| OccursAt(s, i, pattern);
    forall j | 0 <= j < |part|
      ensures s[i + k + j] == part[j]
    {
      assert part[j] == pattern[k + j] == s[i + k + j];
    }
    assert OccursAt(s, i + k, part);
    ContainsIffOccurs(s, part);
  }

  /** A text in which the first character of `pattern` never appears does not contain it. */
  lemma ContainsNeedsFirstChar(s: string, pattern: string)
    requires pattern != [] && pattern[0] !in s
    ensures !Contains(s, pattern)
  {
    forall i: nat | i < |s|
      ensures !OccursAt(s, i, pattern)
    {
      assert s[i] in s;
    }
    ContainsIffOccurs(s, pattern);
  }

  /** Number of positions of `s` that hold `c`. */
  function Occurrences<T(==)>(s: seq<T>, c: T): (r: nat)
    ensures r <= |s|
  {
    if s == [] then 0 else Occurrences(s[..|s| - 1], c) + (if s[|s| - 1] == c then 1 else 0)
  }

  lemma {:induction false} OccurrencesPositive<T>(s: seq<T>, c: T)
    ensures Occurrences(s, c) > 0 <==> c in s
  {
    if s != [] {
      OccurrencesPositive(s[..|s| - 1], c);
      assert s == s[..|s| - 1] + [s[|s| - 1]];
    }
  }

  /** `s.split("").reverse().join("")`. */
  function Reverse<T>(s: seq<T>): (r: seq<T>)
    ensures |r| == |s|
  {
    if s == [] then [] else Reverse(s[1..]) + [s[0]]
  }

  lemma {:induction false} ReverseAt<T>(s: seq<T>, k: nat)
    requires k < |s|
    ensures Reverse(s)[k] == s[|s| - 1 - k]
  {
    if k < |s| - 1 {
      ReverseAt(s[1..], k);
    }
  }

  lemma {:induction false} ReverseAppend<T>(a: seq<T>, b: seq<T>)
    ensures Reverse(a + b) == Reverse(b) + Reverse(a)
  {
    if a == [] {
      assert a + b == b;
    } else {
      assert (a + b)[1..] == a[1..] + b;
      ReverseAppend(a[1..], b);
    }
  }

  lemma {:induction false} ReverseReverse<T>(s: seq<T>)
    ensures Reverse(Reverse(s)) == s
  {
    if s != [] {
      ReverseAppend(Reverse(s[1..]), [s[0]]);
      ReverseReverse(s[1..]);
    }
  }

  /** `s` without its leading whitespace. */
  function TrimStart(s: string): (r: string)
    ensures |r| <= |s| && r == s[|s| - |r|..]
    ensures forall i :: 0 <= i < |s| - |r| ==> IsWhitespace(s[i])
    ensures r == [] || !IsWhitespace(r[0])
  {
    if s != [] && IsWhitespace(s[0]) then TrimStart(s[1..]) else s
  }

  /** `s` without its trailing whitespace. */
  function TrimEnd(s: string): (r: string)
    ensures |r| <= |s| && r == s[..|r|]
    ensures forall i :: |r| <= i < |s| ==> IsWhitespace(s[i])
    ensures r == [] || !IsWhitespace(r[|r| - 1])
  {
    if s != [] && IsWhitespace(s[|s| - 1]) then TrimEnd(s[..|s| - 1]) else s
  }

  /** `s.trim()`. */
  function Trim(s: string): string {
    TrimEnd(TrimStart(s))
  }

  /** Length of the longest prefix of `s` made of decimal digits. */
  function DigitPrefixLength(s: string): (n: nat)
    ensures n <= |s|
    ensures forall i :: 0 <= i < n ==> IsDigit(s[i])
    ensures n == |s| || !IsDigit(s[n])
  {
    if s != [] && IsDigit(s[0]) then 1 + DigitPrefixLength(s[1..]) else 0
  }

  /** Length of the longest prefix of `s` made of whitespace. */
  function WhitespacePrefixLength(s: string): (n: nat)
    ensures n <= |s|
    ensures forall i :: 0 <= i < n ==> IsWhitespace(s[i])
    ensures n == |s| || !IsWhitespace(s[n])
  {
    if s != [] && IsWhitespace(s[0]) then 1 + WhitespacePrefixLength(s[1..]) else 0
  }

  predicate IsHexDigit(c: char) {
    IsDigit(c) || 'a' <= c <= 'f' || 'A' <= c <= 'F'
  }

  /** Length of the longest prefix of `s` made of hexadecimal digits. */
  function HexPrefixLength(s: string): (n: nat)
    ensures n <= |s|
    ensures forall i :: 0 <= i < n ==> IsHexDigit(s[i])
    ensures n == |s| || !IsHexDigit(s[n])
  {
    if s != [] && IsHexDigit(s[0]) then 1 + HexPrefixLength(s[1..]) else 0
  }

  function HexDigitValue(c: char): (v: nat)
    requires IsHexDigit(c)
    ensures v < 16
  {
    if IsDigit(c) then c as int - '0' as int
    else if 'a' <= c <= 'f' then c as int - 'a' as int + 10
    else c as int - 'A' as int + 10
  }

  /** The number written by the digits `ds`, most significant first, in base 10. */
  function DecimalValue(ds: string): nat
    requires forall i :: 0 <= i < |ds| ==> IsDigit(ds[i])
  {
    if ds == [] then 0
    else
      var last := ds[|ds| - 1];
      assert IsDigit(last);
      10 * DecimalValue(ds[..|ds| - 1]) + (last as int - '0' as int)
  }

  /** The number written by the hexadecimal digits `ds`. */
  function HexValue(ds: string): nat
    requires forall i :: 0 <= i < |ds| ==> IsHexDigit(ds[i])
  {
    if ds == [] then 0 else 16 * HexValue(ds[..|ds| - 1]) + HexDigitValue(ds[|ds| - 1])
  }

  /**
   * `parseInt(s)` without a radix argument; `None` stands for `NaN`. Leading whitespace is
   * skipped, one sign is taken, a `0x`/`0X` prefix switches to base 16, and the longest run of
   * digits that follows is read; anything after it is ignored.
   */
  function ParseInt(s: string): (r: Option<int>)
    ensures r.None? <==> Magnitude(Unsigned(TrimStart(s))).None?
    ensures r.Some? && r.value < 0 ==> IsNegative(TrimStart(s))
  {
    var t := TrimStart(s);
    Signed(IsNegative(t), Magnitude(Unsigned(t)))
  }

  /** A magnitude with its sign applied; `NaN` stays `NaN`. */
  function Signed(negative: bool, magnitude: Option<nat>): Option<int> {
    match magnitude
    case None => None
    case Some(m) => Some(if negative then -(m as int) else m as int)
  }

  predicate IsNegative(t: string) {
    t != [] && t[0] == '-'
  }

  /** The text after one leading sign, if there is one. */
  function Unsigned(t: string): string {
    if t != [] && (t[0] == '-' || t[0] == '+') then t[1..] else t
  }

  /** The number at the start of unsigned text: hexadecimal after `0x`/`0X`, else decimal. */
  function Magnitude(u: string): Option<nat> {
    if |u| >= 2 && u[0] == '0' && (u[1] == 'x' || u[1] == 'X') then
      var n := HexPrefixLength(u[2..]);
      if n == 0 then None else Some(HexValue(u[2..][..n]))
    else
      var n := DigitPrefixLength(u);
      if n == 0 then None else Some(DecimalValue(u[..n]))
  }

  /** How `parseInt` puts its result together from the trimmed text's sign and magnitude. */
  lemma ParseIntFromParts(s: string, m: nat)
    requires Magnitude(Unsigned(TrimStart(s))) == Some(m)
    ensures ParseInt(s) == Some(if IsNegative(TrimStart(s)) then -(m as int) else m as int)
  {
  }

  /** A non-empty digit string is read whole, in base 10. */
  lemma MagnitudeOfDigits(ds: string)
    requires ds != [] && forall i :: 0 <= i < |ds| ==> IsDigit(ds[i])
    ensures Magnitude(ds) == Some(DecimalValue(ds))
  {
    assert DigitPrefixLength(ds) == |ds|;
    assert ds[..|ds|] == ds;
  }

  /** On a non-empty string of decimal digits `parseInt` is the number those digits write. */
  lemma ParseIntOfDigits(ds: string)
    requires ds != [] && forall i :: 0 <= i < |ds| ==> IsDigit(ds[i])
    ensures ParseInt(ds) == Some(DecimalValue(ds))
  {
    DigitsAreUnsigned(ds);
    MagnitudeOfDigits(ds);
    ParseIntFromParts(ds, DecimalValue(ds));
  }

  /** Text that starts with a digit has no leading whitespace and no sign. */
  lemma DigitsAreUnsigned(ds: string)
    requires ds != [] && IsDigit(ds[0])
    ensures TrimStart(ds) == ds && Unsigned(ds) == ds && !IsNegative(ds)
  {
    DigitIsNotWhitespace(ds[0]);
  }

  lemma DigitIsNotWhitespace(c: char)
    requires IsDigit(c)
    ensures !IsWhitespace(c)
  {
  }

  /** `parseInt` reads the decimal number at the start of a digit string. */
  lemma ParseIntDecimalExample()
    ensures ParseInt("42") == Some(42)
  {
    ParseIntOfDigits("42");
    DecimalFortyTwo();
  }

  lemma DecimalFortyTwo()
    ensures DecimalValue("42") == 42
  {
    assert "42"[..1] == "4";
  }

  /** Leading whitespace is skipped: it does not change what `parseInt` reads. */
  lemma ParseIntSkipsWhitespace(w: string, u: string)
    requires forall i :: 0 <= i < |w| ==> IsWhitespace(w[i])
    requires u == [] || !IsWhitespace(u[0])
    ensures ParseInt(w + u) == ParseInt(u)
  {
    TrimStartOfWhitespace(w, u);
    assert TrimStart(u) == u;
  }

  /** Trimming removes exactly a whitespace prefix that is followed by something else. */
  lemma {:induction false} TrimStartOfWhitespace(w: string, t: string)
    requires forall i :: 0 <= i < |w| ==> IsWhitespace(w[i])
    requires t == [] || !IsWhitespace(t[0])
    ensures TrimStart(w + t) == t
  {
    if w == [] {
      assert w + t == t;
    } else {
      assert (w + t)[0] == w[0];
      assert (w + t)[1..] == w[1..] + t;
      TrimStartOfWhitespace(w[1..], t);
    }
  }

  /** What follows the leading digits is ignored. */
  lemma ParseIntIgnoresTrailingExample()
    ensures ParseInt("12abc") == Some(12)
  {
    DigitIsNotWhitespace('1');
    assert TrimStart("12abc") == "12abc";
    assert "12abc"[1..] == "2abc" && "2abc"[1..] == "abc";
    assert DigitPrefixLength("12abc") == 2;
    assert "12abc"[..2] == "12";
    assert "12"[..1] == "1" && "1"[..0] == "";
    assert DecimalValue("1") == 1;
    assert DecimalValue("12") == 12;
  }

  /** A minus sign in front negates what `parseInt` reads after it; `NaN` stays `NaN`. */
  lemma ParseIntNegative(u: string)
    ensures ParseInt("-" + u) == Signed(true, Magnitude(u))
  {
    var t := "-" + u;
    assert t[0] == '-' && t[1..] == u;
    assert TrimStart(t) == t;
  }

  /** A `0x` prefix switches to base 16. */
  lemma ParseIntHexExample()
    ensures ParseInt("0x1f") == Some(31)
  {
    DigitIsNotWhitespace('0');
    assert TrimStart("0x1f") == "0x1f";
    assert "0x1f"[2..] == "1f" && "1f"[1..] == "f";
    assert HexPrefixLength("1f") == 2;
    assert "1f"[..2] == "1f";
    assert "1f"[..1] == "1" && "1"[..0] == "";
    assert HexValue("1") == 1;
    assert HexValue("1f") == 31;
  }

  /** Text without a leading number and the empty text are `NaN`. */
  lemma ParseIntNaNExamples()
    ensures ParseInt("abc") == None
    ensures ParseInt("") == None
  {
    assert TrimStart("abc") == "abc";
    assert Unsigned("abc") == "abc";
    assert DigitPrefixLength("abc") == 0;
  }
}
