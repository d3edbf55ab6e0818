/**
 * The pieces of Rust's standard library that the XDCC client is built from:
 * `Option` and `Result` with `?`, the unsigned integer types, `str::trim`, `str::trim_matches`,
 * `str::strip_prefix`, `str::rsplit_once`, `str::replace`, `<uN as FromStr>::from_str`
 * and the decimal `Display` of an unsigned integer.
 */
module RustStd {

  /** `Option`, usable with `:-` the way Rust uses `?`. */
  datatype Option<+T> = None | Some(value: T) {
    predicate IsFailure() { None? }

    function PropagateFailure<U>(): Option<U>
      requires None?
    {
      None
    }

    function Extract(): T
      requires Some?
    {
      value
    }
  }

  /** `Result`, usable with `:-` the way Rust uses `?`. */
  datatype Result<+T, +E> = Ok(value: T) | Err(error: E) {
    predicate IsFailure() { Err? }

    function PropagateFailure<U>(): Result<U, E>
      requires Err?
    {
      Err(error)
    }

    function Extract(): T
      requires Ok?
    {
      value
    }
  }

  newtype u8 = x: int | 0 <= x < 0x100
  newtype u16 = x: int | 0 <= x < 0x1_0000
  newtype u32 = x: int | 0 <= x < 0x1_0000_0000
  newtype u64 = x: int | 0 <= x < 0x1_0000_0000_0000_0000

  const U16_MAX: nat := 0xFFFF
  const U32_MAX: nat := 0xFFFF_FFFF
  const U64_MAX: nat := 0xFFFF_FFFF_FFFF_FFFF

  /** `char::is_whitespace`: the characters with the Unicode White_Space property. */
  predicate IsWhitespace(c: char) {
    || '\t' <= c <= '\r'
    || c == ' '
    || c == '\U{85}'
    || c == '\U{A0}'
    || c == '\U{1680}'
    || '\U{2000}' <= c <= '\U{200A}'
    || c == '\U{2028}'
    || c == '\U{2029}'
    || c == '\U{202F}'
    || c == '\U{205F}'
    || c == '\U{3000}'
  }

  /** The index of the first character of `s` from `i` on that does not satisfy `p`, or `|s|` if there is none. */
  function FirstUnmatched(s: string, p: char -> bool, i: nat): (k: nat)
    requires i <= |s|
    ensures i <= k <= |s|
    ensures forall j :: i <= j < k ==> p(s[j])
    ensures k < |s| ==> !p(s[k])
    decreases |s| - i
  {
    if i == |s| || !p(s[i]) then i else FirstUnmatched(s, p, i + 1)
  }

  /** The end of the last character of `s[..i]` that does not satisfy `p`, or 0 if there is none. */
  function LastUnmatchedEnd(s: string, p: char -> bool, i: nat): (k: nat)
    requires i <= |s|
    ensures k <= i
    ensures forall j :: k <= j < i ==> p(s[j])
    ensures k > 0 ==> !p(s[k - 1])
  {
    if i == 0 || !p(s[i - 1]) then i else LastUnmatchedEnd(s, p, i - 1)
  }

  /** `str::trim_start_matches` with a character predicate. */
  function TrimStartMatches(s: string, p: char -> bool): (r: string)
    ensures |r| <= |s| && r == s[|s| - |r|..]
    ensures forall i :: 0 <= i < |s| - |r| ==> p(s[i])
    ensures r == [] || !p(r[0])
  {
    s[FirstUnmatched(s, p, 0)..]
  }

  /** `str::trim_end_matches` with a character predicate. */
  function TrimEndMatches(s: string, p: char -> bool): (r: string)
    ensures |r| <= |s| && r == s[..|r|]
    ensures forall i :: |r| <= i < |s| ==> p(s[i])
    ensures r == [] || !p(r[|r| - 1])
  {
    s[..LastUnmatchedEnd(s, p, |s|)]
  }

  /** `r` is the slice of `s` from `k`, and every character of `s` outside that slice satisfies `p`. */
  predicate TrimmedSlice(s: string, r: string, k: int, p: char -> bool) {
    && 0 <= k <= |s| - |r| && r == s[k..k + |r|]
    && (forall i :: 0 <= i < k ==> p(s[i]))
    && (forall i :: k + |r| <= i < |s| ==> p(s[i]))
  }

  /**
   * `str::trim_matches`: drop every leading and every trailing character that satisfies `p`.
   * The result is the slice of `s` left between the dropped runs, and neither of its ends matches.
   */
  function TrimMatches(s: string, p: char -> bool): (r: string)
    ensures exists k :: TrimmedSlice(s, r, k, p)
    ensures r == [] || (!p(r[0]) && !p(r[|r| - 1]))
  {
    var t := TrimStartMatches(s, p);
    var r := TrimEndMatches(t, p);
    PrefixOfSuffix(s, t, r, p);
    assert r != [] ==> r[0] == t[0];
    r
  }

  /** Cutting a matching run off the front of `s`, and then one off the back of the rest, leaves a trimmed slice of `s`. */
  lemma PrefixOfSuffix(s: string, t: string, r: string, p: char -> bool)
    requires |t| <= |s| && t == s[|s| - |t|..] && forall i :: 0 <= i < |s| - |t| ==> p(s[i])
    requires |r| <= |t| && r == t[..|r|] && forall i :: |r| <= i < |t| ==> p(t[i])
    ensures TrimmedSlice(s, r, |s| - |t|, p)
  {
    var k := |s| - |t|;
    forall i | k + |r| <= i < |s|
      ensures p(s[i])
    {
      assert s[i] == t[i - k];
    }
    assert r == s[k..k + |r|];
  }

  /** `str::trim`. */
  function Trim(s: string): string {
    TrimMatches(s, IsWhitespace)
  }

  /** `str::trim` leaves the slice of `s` between its leading and trailing White_Space, with no White_Space at either end. */
  lemma TrimSlice(s: string)
    ensures exists k :: TrimmedSlice(s, Trim(s), k, IsWhitespace)
    ensures Trim(s) == [] || (!IsWhitespace(Trim(s)[0]) && !IsWhitespace(Trim(s)[|Trim(s)| - 1]))
  {
    var r := TrimMatches(s, IsWhitespace);
    assert r == Trim(s);
  }

  /** A string that starts and ends with a character outside `p` is left as it is by `TrimMatches`. */
  lemma TrimMatchesUnchanged(s: string, p: char -> bool)
    requires s != [] && !p(s[0]) && !p(s[|s| - 1])
    ensures TrimMatches(s, p) == s
  {
  }

  /** `TrimMatches` removes exactly one `c` from each end of `[c] + m + [c]` when `m` neither starts nor ends with one. */
  lemma TrimMatchesOneEach(m: string, c: char, p: char -> bool)
    requires p(c)
    requires m == [] || (!p(m[0]) && !p(m[|m| - 1]))
    ensures TrimMatches([c] + m + [c], p) == m
  {
    var s := [c] + m + [c];
    if m == [] {
      assert FirstUnmatched(s, p, 0) == 2;
    } else {
      assert s[1] == m[0];
      assert FirstUnmatched(s, p, 0) == 1;
      var t := s[1..];
      assert t == m + [c] && t[|m| - 1] == m[|m| - 1];
      assert LastUnmatchedEnd(t, p, |t|) == |m|;
      assert t[..|m|] == m;
    }
  }

  /** `str::strip_prefix`. */
  function StripPrefix(s: string, prefix: string): (r: Option<string>)
    ensures r.Some? <==> prefix <= s
    ensures r.Some? ==> s == prefix + r.value
  {
    if prefix <= s then Some(s[|prefix|..]) else None
  }

  /** `str::rsplit_once` with a one-character pattern: split around the last occurrence of `d`. */
  function RSplitOnce(s: string, d: char): (r: Option<(string, string)>)
    ensures r.None? <==> d !in s
    ensures r.Some? ==> s == r.value.0 + [d] + r.value.1 && d !in r.value.1
  {
    if s == [] then None
    else if s[|s| - 1] == d then Some((s[..|s| - 1], []))
    else
      match RSplitOnce(s[..|s| - 1], d)
      case None => None
      case Some((left, right)) => Some((left, right + [s[|s| - 1]]))
  }

  /** Splitting `left + [d] + right` at its last `d` gives back `left` and `right` when `right` holds no `d`. */
  lemma {:induction false} RSplitOnceAt(left: string, d: char, right: string)
    requires d !in right
    ensures RSplitOnce(left + [d] + right, d) == Some((left, right))
  {
    var s := left + [d] + right;
    if right == [] {
      assert s[..|s| - 1] == left;
    } else {
      var shorter := right[..|right| - 1];
      assert s[..|s| - 1] == left + [d] + shorter;
      assert s[|s| - 1] == right[|right| - 1];
      RSplitOnceAt(left, d, shorter);
      assert shorter + [right[|right| - 1]] == right;
    }
  }

  /**
   * `str::replace`: every non-overlapping occurrence of `from`, found left to right,
   * replaced by `to`. Rust treats an empty `from` differently; no caller passes one.
   * A string that lacks the first or the last character of `from` holds no occurrence and
   * comes back unchanged; a replacement no longer than the pattern never lengthens the string.
   */
  function Replace(s: string, from: string, to: string): (r: string)
    requires from != []
    ensures |to| <= |from| ==> |r| <= |s|
    decreases |s|
  {
    if s == [] then []
    else if from <= s then
      assert s[|from| - 1] == from[|from| - 1];
      to + Replace(s[|from|..], from, to)
    else [s[0]] + Replace(s[1..], from, to)
  }

  /** A string missing the first character of `from` has nothing to replace. */
  lemma {:induction false} ReplaceAbsent(s: string, from: string, to: string)
    requires from != [] && from[0] !in s
    ensures Replace(s, from, to) == s
  {
    if s != [] {
      ReplaceAbsent(s[1..], from, to);
    }
  }

  /** A string missing the last character of `from` has nothing to replace. */
  lemma {:induction false} ReplaceLastAbsent(s: string, from: string, to: string)
    requires from != [] && from[|from| - 1] !in s
    ensures Replace(s, from, to) == s
  {
    if s != [] {
      ReplaceLastAbsent(s[1..], from, to);
    }
  }

  /** Replacing a single character handles the first character, then the rest. */
  lemma ReplaceCharStep(s: string, c: char, to: string)
    requires s != []
    ensures Replace(s, [c], to) == (if s[0] == c then to else [s[0]]) + Replace(s[1..], [c], to)
  {
    assert [c] <= s <==> s[0] == c;
  }

  /** Replacing a single character distributes over concatenation. */
  lemma {:induction false} ReplaceCharConcat(a: string, b: string, c: char, to: string)
    ensures Replace(a + b, [c], to) == Replace(a, [c], to) + Replace(b, [c], to)
  {
    if a == [] {
      assert a + b == b;
    } else {
      var ab := a + b;
      var head := if a[0] == c then to else [a[0]];
      assert ab[0] == a[0] && ab[1..] == a[1..] + b;
      ReplaceCharStep(ab, c, to);
      ReplaceCharStep(a, c, to);
      calc {
        Replace(ab, [c], to);
        head + Replace(a[1..] + b, [c], to);
        { ReplaceCharConcat(a[1..], b, c, to); }
        head + (Replace(a[1..], [c], to) + Replace(b, [c], to));
        Replace(a, [c], to) + Replace(b, [c], to);
      }
    }
  }

  predicate IsDigit(c: char) { '0' <= c <= '9' }

  predicate AllDigits(s: string) {
    forall i :: 0 <= i < |s| ==> IsDigit(s[i])
  }

  /** The number an ASCII decimal string denotes, most significant digit first. */
  function DigitsValue(s: string): nat
    requires AllDigits(s)
  {
    if s == [] then 0 else 10 * DigitsValue(s[..|s| - 1]) + ((s[|s| - 1] as int) - ('0' as int))
  }

  /**
   * `<uN as FromStr>::from_str` for the unsigned type whose largest value is `max`:
   * an optional single `+`, then one or more ASCII digits, and a value that fits.
   * An empty string, a lone `+`, a `-`, any other character and an overflow are all errors.
   */
  function ParseUnsigned(s: string, max: nat): (r: Option<nat>)
    ensures r.Some? ==> r.value <= max
    ensures r.Some? ==> (s != [] && AllDigits(s)) || (|s| > 1 && s[0] == '+' && AllDigits(s[1..]))
    ensures s != [] && AllDigits(s) ==>
      r == if DigitsValue(s) <= max then Some(DigitsValue(s)) else None
    ensures |s| > 1 && s[0] == '+' && AllDigits(s[1..]) ==>
      r == if DigitsValue(s[1..]) <= max then Some(DigitsValue(s[1..])) else None
  {
    var digits := if s != [] && s[0] == '+' then s[1..] else s;
    if digits != [] && AllDigits(digits) && DigitsValue(digits) <= max then Some(DigitsValue(digits)) else None
  }

  function DigitChar(d: nat): (c: char)
    requires d < 10
  {
    (('0' as int) + d) as char
  }

  /** The decimal `Display` of an unsigned integer, as `format!("{}", n)` writes it. */
  function DecimalString(n: nat): (s: string)
    ensures s != [] && AllDigits(s)
    ensures s[0] != '+'
    ensures s[0] == '0' <==> n == 0
  {
    if n < 10 then [DigitChar(n)] else DecimalString(n / 10) + [DigitChar(n % 10)]
  }

  /** Appending a digit to a positive number appends its character to the decimal string. */
  lemma DecimalStringPush(n: nat, d: nat)
    requires n >= 1 && d < 10
    ensures DecimalString(10 * n + d) == DecimalString(n) + [DigitChar(d)]
  {
    assert (10 * n + d) / 10 == n;
    assert (10 * n + d) % 10 == d;
  }

  /** Reading back the decimal string of `n` gives `n`. */
  lemma {:induction false} DecimalStringValue(n: nat)
    ensures DigitsValue(DecimalString(n)) == n
  {
    if n >= 10 {
      var s := DecimalString(n);
      assert s[..|s| - 1] == DecimalString(n / 10);
      DecimalStringValue(n / 10);
    }
  }

  /** Parsing the decimal string of any `n` within range gives `n` back; the string holds no space. */
  lemma ParseDecimalString(n: nat, max: nat)
    requires n <= max
    ensures ParseUnsigned(DecimalString(n), max) == Some(n)
    ensures ' ' !in DecimalString(n)
  {
    DecimalStringValue(n);
  }

  /** The decimal string of a number above `max` does not parse: the overflow is rejected. */
  lemma OverflowRejected(n: nat, max: nat)
    requires n > max
    ensures ParseUnsigned(DecimalString(n), max) == None
    ensures ' ' !in DecimalString(n)
  {
    DecimalStringValue(n);
  }
}
