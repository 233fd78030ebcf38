/**
 * The slice of the JavaScript runtime the core leans on: `String.prototype.trim`,
 * `String.prototype.replace` with a string pattern, the global `parseInt` with
 * no radix argument, `+ 1` on a number and a number's rendering inside a
 * template literal. Numbers are restricted to NaN and integers; the ±Infinity
 * that `parseInt` returns past Number.MAX_VALUE, and -0, are not modelled.
 */
module JsRuntime {
  import opened Wrappers
  import opened Numerals

  /**
   * WhiteSpace and LineTerminator as ECMAScript defines them: tab, vertical tab,
   * form feed, space, no-break space, the byte order mark, the other space
   * separators of Unicode's Zs category, line feed, carriage return, and the
   * line and paragraph separators.
   */
  predicate IsJsWhitespace(c: char) {
    var n := c as int;
    n == 0x09 || n == 0x0B || n == 0x0C || n == 0x20 || n == 0xA0 || n == 0xFEFF ||
    n == 0x1680 || (0x2000 <= n <= 0x200A) || n == 0x202F || n == 0x205F || n == 0x3000 ||
    n == 0x0A || n == 0x0D || n == 0x2028 || n == 0x2029
  }

  /** Drops the leading whitespace: a suffix of `s` that starts with a non-blank character. */
  function TrimStart(s: string): (r: string)
    ensures |r| <= |s| && r == s[|s| - |r|..]
    ensures r == [] || !IsJsWhitespace(r[0])
    ensures forall k :: 0 <= k < |s| - |r| ==> IsJsWhitespace(s[k])
    decreases |s|
  {
    if s != [] && IsJsWhitespace(s[0]) then TrimStart(s[1..]) else s
  }

  /** Drops the trailing whitespace: a prefix of `s` that ends with a non-blank character. */
  function TrimEnd(s: string): (r: string)
    ensures |r| <= |s| && r == s[..|r|]
    ensures r == [] || !IsJsWhitespace(r[|r| - 1])
    ensures forall k :: |r| <= k < |s| ==> IsJsWhitespace(s[k])
    decreases |s|
  {
    if s != [] && IsJsWhitespace(s[|s| - 1]) then TrimEnd(s[..|s| - 1]) else s
  }

  /**
   * `s.trim()`: nothing is left exactly when `s` is all whitespace; what is left
   * starts and ends with a non-blank character.
   */
  function Trim(s: string): (r: string)
    ensures |r| <= |s|
    ensures r == [] <==> forall k :: 0 <= k < |s| ==> IsJsWhitespace(s[k])
    ensures r != [] ==> !IsJsWhitespace(r[0]) && !IsJsWhitespace(r[|r| - 1])
  {
    var t := TrimStart(s);
    var r := TrimEnd(t);
    assert r != [] ==> r[0] == t[0] && s[|s| - |t|] == t[0];
    r
  }

  predicate OccursAt(s: string, pat: string, i: nat) {
    i + |pat| <= |s| && s[i..i + |pat|] == pat
  }

  /** The first index at or after `from` where `pat` occurs in `s`. */
  function IndexFrom(s: string, pat: string, from: nat): (r: Option<nat>)
    ensures r.Some? ==> from <= r.value && OccursAt(s, pat, r.value)
    ensures forall j :: from <= j && (r.None? || j < r.value) ==> !OccursAt(s, pat, j)
    decreases |s| - from
  {
    if from + |pat| > |s| then None
    else if OccursAt(s, pat, from) then Some(from)
    else IndexFrom(s, pat, from + 1)
  }

  /**
   * `s.replace(pat, rep)` with a string pattern and a replacement that holds no
   * `$`: JavaScript expands `$$`, `$&`, `` $` `` and `$'` in the replacement,
   * which this function does not, so it agrees with `replace` only without `$`.
   */
  function ReplaceFirst(s: string, pat: string, rep: string): string
  {
    match IndexFrom(s, pat, 0)
    case None => s
    case Some(i) => s[..i] + rep + s[i + |pat|..]
  }

  /**
   * `replace` with a string pattern and a `$`-free replacement replaces the
   * first occurrence and only that one; without an occurrence the text is
   * returned unchanged.
   */
  lemma ReplaceFirstReplacesFirst(s: string, pat: string, rep: string)
    requires '$' !in rep
    ensures (forall i: nat :: !OccursAt(s, pat, i)) ==> ReplaceFirst(s, pat, rep) == s
    ensures forall i: nat :: OccursAt(s, pat, i) && (forall j: nat :: j < i ==> !OccursAt(s, pat, j)) ==>
      ReplaceFirst(s, pat, rep) == s[..i] + rep + s[i + |pat|..]
  {
    match IndexFrom(s, pat, 0)
    case None =>
    case Some(first) =>
  }

  /** A string that starts with the pattern loses exactly that prefix. */
  lemma ReplaceFirstAtStart(pat: string, rest: string)
    ensures ReplaceFirst(pat + rest, pat, "") == rest
  {
    var s := pat + rest;
    assert OccursAt(s, pat, 0);
  }

  /** A JavaScript number as far as this core can produce one: NaN or an integer. */
  datatype JsNumber = NaN | Int(n: int)

  /** The length of the longest prefix of `w` made of digits in `radix`. */
  function DigitRun(w: string, radix: nat): (r: nat)
    ensures r <= |w|
    ensures AllRadixDigits(w[..r], radix)
    ensures r < |w| ==> !IsRadixDigit(w[r], radix)
    decreases |w|
  {
    if w != [] && IsRadixDigit(w[0], radix) then
      var r := 1 + DigitRun(w[1..], radix);
      assert w[..r] == [w[0]] + w[1..][..r - 1];
      r
    else 0
  }

  /**
   * The unsigned part of `parseInt`: `0x`/`0X` switches to hexadecimal, then the
   * longest run of digits is read; `None` when that run is empty. A value is
   * read only when the text starts with a decimal digit (the `0` of `0x`
   * included).
   */
  function Magnitude(u: string): (m: Option<nat>)
    ensures m.Some? ==> |u| > 0 && IsDigit(u[0])
  {
    var hex := |u| >= 2 && u[0] == '0' && (u[1] == 'x' || u[1] == 'X');
    var radix := if hex then 16 else 10;
    var w := if hex then u[2..] else u;
    var z := w[..DigitRun(w, radix)];
    if z == [] then None else Some(Value(z, radix))
  }

  /**
   * `parseInt(s)` with no radix: skip leading whitespace, take one optional sign,
   * then the unsigned part; NaN when it has no digits. (A negative zero is not
   * kept apart from zero: adding one and rendering cannot tell them apart.)
   */
  function ParseInt(s: string): JsNumber
  {
    var t := TrimStart(s);
    var u := if |t| > 0 && (t[0] == '-' || t[0] == '+') then t[1..] else t;
    match Magnitude(u)
    case None => NaN
    case Some(m) => if |t| > 0 && t[0] == '-' then Int(-(m as int)) else Int(m)
  }

  /** `parseInt` yields a number only when the text holds a decimal digit. */
  lemma ParseIntNeedsDigit(s: string)
    ensures ParseInt(s).Int? ==> exists k :: 0 <= k < |s| && IsDigit(s[k])
  {
    var t := TrimStart(s);
    var u := if |t| > 0 && (t[0] == '-' || t[0] == '+') then t[1..] else t;
    if ParseInt(s).Int? {
      assert s[|s| - |u|] == u[0];
    }
  }

  /** The digit run of a string made only of digits is the whole string. */
  lemma DigitRunAll(w: string, radix: nat)
    requires AllRadixDigits(w, radix)
    ensures DigitRun(w, radix) == |w|
  {
  }

  /** A non-empty string of decimal digits reads as its decimal value. */
  lemma MagnitudeOfDigits(d: string)
    requires |d| > 0 && AllDigits(d)
    ensures Magnitude(d) == Some(Value(d, 10))
  {
    assert |d| >= 2 ==> IsDigit(d[1]);
    DigitRunAll(d, 10);
    assert d[..|d|] == d;
  }

  /** Text that starts with a digit has no blanks or sign to skip: it is read as it stands. */
  lemma ParseIntFromDigit(d: string, n: nat)
    requires |d| > 0 && IsDigit(d[0]) && Magnitude(d) == Some(n)
    ensures ParseInt(d) == Int(n)
  {
    assert !IsJsWhitespace(d[0]) && d[0] != '-' && d[0] != '+';
    assert TrimStart(d) == d;
  }

  /** On a non-empty string of decimal digits `parseInt` is the decimal value. */
  lemma ParseIntOfDigits(d: string)
    requires |d| > 0 && AllDigits(d)
    ensures ParseInt(d) == Int(Value(d, 10))
  {
    MagnitudeOfDigits(d);
    ParseIntFromDigit(d, Value(d, 10));
  }

  /** `x + 1`. */
  function AddOne(x: JsNumber): (r: JsNumber)
    ensures r.NaN? <==> x.NaN?
    ensures x.Int? ==> r.n > x.n
  {
    match x
    case NaN => NaN
    case Int(n) => Int(n + 1)
  }

  /** The rendering of a number inside a template literal (`${x}`). */
  function NumberToString(x: JsNumber): (r: string)
    ensures |r| > 0
  {
    match x
    case NaN => "NaN"
    case Int(n) => if n < 0 then "-" + Format(-n) else Format(n)
  }

  /** Text that starts with neither whitespace, a sign nor a digit reads as NaN. */
  lemma ParseIntNoDigits(s: string)
    requires |s| > 0 && !IsJsWhitespace(s[0]) && !IsDigit(s[0]) && s[0] != '-' && s[0] != '+'
    ensures ParseInt(s) == NaN
  {
    assert TrimStart(s) == s;
  }

}
