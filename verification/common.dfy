/**
 * Shared vocabulary of the sales core: identifiers, the failure-compatible
 * `Result`/`Outcome` types that stand in for thrown exceptions, the error
 * kinds the handlers raise, and the .NET string helpers (`IsNullOrWhiteSpace`,
 * `Trim`) the aggregate relies on.
 */
module Common {

  /** A `System.Guid`, as the 128-bit number whose 32 hex digits are its
      canonical text. `EmptyGuid` is `Guid.Empty`. */
  type Guid = nat

  const EmptyGuid: Guid := 0

  /** A point in time (`DateTimeOffset`), passed in by the caller. */
  type Timestamp = int

  datatype Option<+T> = None | Some(value: T)

  /** One failed validation rule. Each variant names the rule that failed; the
      per-item rules carry the index of the offending item. */
  datatype Failure =
    // ModifySaleValidator and ModifySaleRequestValidator
    | SaleIdEmpty
    | ItemsEmpty
    | DuplicateProductId
    | ItemProductIdEmpty(index: nat)
    | ItemQuantityNegative(index: nat)
    | ItemQuantityAboveTwenty(index: nat)
    // CreateSaleValidator and CreateSaleItemValidator
    | NumberRequired
    | CustomerIdRequired
    | BranchIdRequired
    | ItemsRequired
    | ItemQuantityNotPositive(index: nat)
    | ItemQuantityAboveLimit(index: nat)
    // CancelSaleValidator
    | SaleIdCannotBeEmpty

  /** The exceptions the core raises, one variant per exception type. */
  datatype Error =
    | DomainError(message: string)                // DomainException
    | ValidationError(failures: seq<Failure>)     // FluentValidation.ValidationException
    | NotFound(message: string)                   // KeyNotFoundException
    | ApplicationError(message: string)           // ApplicationException
    | DuplicateKey(key: Guid)                     // ArgumentException from ToDictionary
    | MoreThanOneMatch                            // InvalidOperationException from SingleOrDefault

  datatype Result<+T> = Ok(value: T) | Err(error: Error) {
    predicate IsFailure() { Err? }

    function PropagateFailure<U>(): Result<U>
      requires Err?
    {
      Err(error)
    }

    function Extract(): T
      requires Ok?
    {
      value
    }
  }

  /** A check that either passes or raises. */
  datatype Outcome = Pass | Fail(error: Error) {
    predicate IsFailure() { Fail? }

    function PropagateFailure<U>(): Result<U>
      requires Fail?
    {
      Err(error)
    }
  }

  /** `char.IsWhiteSpace`: the Unicode space, line and paragraph separators,
      plus U+0009..U+000D and U+0085. */
  predicate IsWhiteSpace(c: char) {
    || ('\U{9}' <= c <= '\U{D}')
    || c == ' ' || c == '\U{85}' || c == '\U{A0}' || c == '\U{1680}'
    || ('\U{2000}' <= c <= '\U{200A}')
    || c == '\U{2028}' || c == '\U{2029}' || c == '\U{202F}' || c == '\U{205F}' || c == '\U{3000}'
  }

  predicate AllWhiteSpace(s: string) {
    forall i :: 0 <= i < |s| ==> IsWhiteSpace(s[i])
  }

  /** `string.IsNullOrWhiteSpace`; `None` is the null reference. */
  predicate IsNullOrWhiteSpace(s: Option<string>) {
    s.None? || AllWhiteSpace(s.value)
  }

  /** The first position from `i` on that does not hold white space, or
      `|s|` when there is none. */
  function SkipLeading(s: string, i: nat): (k: nat)
    requires i <= |s|
    ensures i <= k <= |s|
    ensures forall j :: i <= j < k ==> IsWhiteSpace(s[j])
    ensures k < |s| ==> !IsWhiteSpace(s[k])
    decreases |s| - i
  {
    if i < |s| && IsWhiteSpace(s[i]) then SkipLeading(s, i + 1) else i
  }

  /** Scanning back from `e`, the end of the last character at or after
      `lo` that is not white space, or `lo` when there is none. */
  function SkipTrailing(s: string, lo: nat, e: nat): (k: nat)
    requires lo <= e <= |s|
    ensures lo <= k <= e
    ensures forall j :: k <= j < e ==> IsWhiteSpace(s[j])
    ensures k > lo ==> !IsWhiteSpace(s[k - 1])
    decreases e
  {
    if e > lo && IsWhiteSpace(s[e - 1]) then SkipTrailing(s, lo, e - 1) else e
  }

  /** `string.Trim()`: drops the leading and the trailing white space. */
  function Trim(s: string): string {
    var a := SkipLeading(s, 0);
    s[a..SkipTrailing(s, a, |s|)]
  }

  /** A trimmed string is a contiguous piece of the original whose ends are not
      white space, and everything cut off on either side was white space. */
  lemma TrimSpec(s: string)
    ensures exists a, b :: && 0 <= a <= b <= |s| && Trim(s) == s[a..b]
                           && (forall j :: 0 <= j < a ==> IsWhiteSpace(s[j]))
                           && (forall j :: b <= j < |s| ==> IsWhiteSpace(s[j]))
    ensures Trim(s) == [] || (!IsWhiteSpace(Trim(s)[0]) && !IsWhiteSpace(Trim(s)[|Trim(s)| - 1]))
  {
    var a := SkipLeading(s, 0);
    var b := SkipTrailing(s, a, |s|);
    var t := Trim(s);
    assert t == s[a..b];
    if t != [] {
      assert t[0] == s[a] && t[|t| - 1] == s[b - 1];
    }
  }

  /** Trimming twice is trimming once. */
  lemma TrimIdempotent(s: string)
    ensures Trim(Trim(s)) == Trim(s)
  {
    var t := Trim(s);
    TrimSpec(s);
    if t != [] {
      assert SkipLeading(t, 0) == 0;
      assert SkipTrailing(t, 0, |t|) == |t|;
      assert t[0..|t|] == t;
    }
  }

  /** A string trims to nothing exactly when it is all white space; so a string
      that passes `IsNullOrWhiteSpace` keeps at least one character. */
  lemma TrimEmptyIffWhiteSpace(s: string)
    ensures Trim(s) == [] <==> AllWhiteSpace(s)
  {
    var a := SkipLeading(s, 0);
    var b := SkipTrailing(s, a, |s|);
    assert |Trim(s)| == b - a;
  }

  function Pow16(n: nat): (r: nat)
    ensures r >= 1
  {
    if n == 0 then 1 else 16 * Pow16(n - 1)
  }

  predicate IsHexDigit(c: char) {
    '0' <= c <= '9' || 'a' <= c <= 'f'
  }

  /** The value of a lower-case hex digit. */
  function HexValue(c: char): (v: nat)
    requires IsHexDigit(c)
    ensures v < 16
  {
    if c <= '9' then (c - '0') as nat else (c - 'a') as nat + 10
  }

  /** The lower-case hex digit of `d`. */
  function HexChar(d: nat): (c: char)
    requires d < 16
    ensures IsHexDigit(c) && HexValue(c) == d
  {
    if d < 10 then '0' + d as char else 'a' + (d - 10) as char
  }

  /** The `count` least significant hex digits of `n`, most significant first. */
  function HexDigits(n: nat, count: nat): (r: string)
    ensures |r| == count
    ensures forall i :: 0 <= i < |r| ==> IsHexDigit(r[i])
  {
    if count == 0 then [] else HexDigits(n / 16, count - 1) + [HexChar(n % 16)]
  }

  /** The number a string of hex digits spells, most significant first. */
  function HexNumber(s: string): nat
    requires forall i :: 0 <= i < |s| ==> IsHexDigit(s[i])
  {
    if |s| == 0 then 0 else 16 * HexNumber(s[..|s| - 1]) + HexValue(s[|s| - 1])
  }

  /** Every string of `n` hex digits spells a number below `16^n`, so the
      digits `HexDigits` writes cover exactly the numbers that fit. */
  lemma {:induction false} HexNumberBound(s: string)
    requires forall i :: 0 <= i < |s| ==> IsHexDigit(s[i])
    ensures HexNumber(s) < Pow16(|s|)
  {
    if |s| > 0 {
      var n := |s| - 1;
      HexNumberBound(s[..n]);
      assert HexNumber(s) <= 16 * (Pow16(n) - 1) + 15;
    }
  }

  /** Reading the digits back gives the number, when it fits in them. */
  lemma {:induction false} HexDigitsRoundTrip(n: nat, count: nat)
    requires n < Pow16(count)
    ensures HexNumber(HexDigits(n, count)) == n
  {
    if count > 0 {
      var h := HexDigits(n, count);
      assert h[..count - 1] == HexDigits(n / 16, count - 1);
      assert n / 16 < Pow16(count - 1);
      HexDigitsRoundTrip(n / 16, count - 1);
    }
  }

  /** `Guid.ToString()`: 32 lower-case hex digits grouped 8-4-4-4-12. */
  function GuidText(g: Guid): (r: string)
    ensures |r| == 36
    ensures r[8] == '-' && r[13] == '-' && r[18] == '-' && r[23] == '-'
    ensures forall i :: 0 <= i < 36 && i != 8 && i != 13 && i != 18 && i != 23 ==> IsHexDigit(r[i])
  {
    var h := HexDigits(g, 32);
    h[..8] + "-" + h[8..12] + "-" + h[12..16] + "-" + h[16..20] + "-" + h[20..]
  }

  /** The 32 digits of a text in `GuidText`'s layout, hyphens dropped. */
  function GuidDigits(t: string): (h: string)
    requires |t| == 36
    ensures |h| == 32
  {
    t[..8] + t[9..13] + t[14..18] + t[19..23] + t[24..]
  }

  /** Parses the text back: a 128-bit id is recovered from its text, so no
      two ids share one. */
  lemma GuidTextRoundTrip(g: Guid)
    requires g < Pow16(32)
    ensures GuidDigits(GuidText(g)) == HexDigits(g, 32)
    ensures HexNumber(GuidDigits(GuidText(g))) == g
  {
    RegroupDigits(HexDigits(g, 32));
    HexDigitsRoundTrip(g, 32);
  }

  /** Dropping the hyphens from the 8-4-4-4-12 grouping gives the digits back. */
  lemma RegroupDigits(h: string)
    requires |h| == 32
    ensures GuidDigits(h[..8] + "-" + h[8..12] + "-" + h[12..16] + "-" + h[16..20] + "-" + h[20..]) == h
  {
    var t := h[..8] + "-" + h[8..12] + "-" + h[12..16] + "-" + h[16..20] + "-" + h[20..];
    assert t[..8] == h[..8] && t[9..13] == h[8..12] && t[14..18] == h[12..16];
    assert t[19..23] == h[16..20] && t[24..] == h[20..];
    assert h == h[..8] + h[8..12] + h[12..16] + h[16..20] + h[20..];
  }

  /** Distinct 128-bit ids have distinct texts. */
  lemma GuidTextInjective(a: Guid, b: Guid)
    requires a < Pow16(32) && b < Pow16(32) && GuidText(a) == GuidText(b)
    ensures a == b
  {
    GuidTextRoundTrip(a);
    GuidTextRoundTrip(b);
  }

  /** The text "Product {id} not found." raised by both handlers. */
  function ProductNotFoundMessage(productId: Guid): string {
    "Product " + GuidText(productId) + " not found."
  }
}
