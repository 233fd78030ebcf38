/**
 * The registration form's per-field validator. `ValidateField` follows the
 * switch of the form component case by case and returns `""` for a value that
 * passes or one of a fixed set of messages. `Accepts` states the same rules the
 * way the regular expressions read (a language of strings), independently of
 * how `ValidateField` computes them; the two are proved to agree.
 */
module FieldValidation {
  import opened Numerals
  import opened JsRuntime

  // ---------------------------------------------------------------------------
  // Character classes of the regular expressions (no `u` flag: ASCII only)

  predicate IsAsciiLetter(c: char) {
    'a' <= c <= 'z' || 'A' <= c <= 'Z'
  }

  /** `\w`. */
  predicate IsWordChar(c: char) {
    IsAsciiLetter(c) || IsDigit(c) || c == '_'
  }

  /** `[\w.%+-]`, the local part of an address. */
  predicate IsLocalChar(c: char) {
    IsWordChar(c) || c == '.' || c == '%' || c == '+' || c == '-'
  }

  /** `[\w.-]`, the domain of an address. */
  predicate IsDomainChar(c: char) {
    IsWordChar(c) || c == '.' || c == '-'
  }

  /** `[!@#$%^&*]`. */
  predicate IsSpecial(c: char) {
    c == '!' || c == '@' || c == '#' || c == '$' || c == '%' || c == '^' || c == '&' || c == '*'
  }

  predicate AllLocal(s: string) {
    forall k :: 0 <= k < |s| ==> IsLocalChar(s[k])
  }

  predicate AllDomain(s: string) {
    forall k :: 0 <= k < |s| ==> IsDomainChar(s[k])
  }

  predicate AllLetters(s: string) {
    forall k :: 0 <= k < |s| ==> IsAsciiLetter(s[k])
  }

  predicate HasSpecial(s: string) {
    exists k :: 0 <= k < |s| && IsSpecial(s[k])
  }

  // ---------------------------------------------------------------------------
  // What the regular expressions accept

  /**
   * `v` matches `^[\w.%+-]+@[\w.-]+\.[A-Za-z]{2,}$` with the `@` at index `i`
   * and the dot before the top-level domain at index `j`.
   */
  ghost predicate EmailShape(v: string, i: int, j: int) {
    0 < i && i + 1 < j && j + 3 <= |v| &&
    v[i] == '@' && v[j] == '.' &&
    AllLocal(v[..i]) && AllDomain(v[i + 1..j]) && AllLetters(v[j + 1..])
  }

  /** The rule of each field, stated as the language its test accepts. */
  ghost predicate Accepts(name: string, value: string) {
    if name == "name" then exists k :: 0 <= k < |value| && !IsJsWhitespace(value[k])
    else if name == "email" then exists i, j :: EmailShape(value, i, j)
    else if name == "dob" || name == "role" || name == "gender" then value != ""
    else if name == "age" then |value| > 0 && AllDigits(value) && exists k :: 0 <= k < |value| && value[k] != '0'
    else if name == "mobile" then |value| == 10 && AllDigits(value)
    else if name == "password" then |value| >= 6 && HasSpecial(value)
    else true
  }

  /** The fields of the registration form, each with a case in the validator's switch. */
  const FieldNames: set<string> := {"name", "email", "dob", "role", "gender", "age", "mobile", "password"}

  /** The messages a field can report. */
  function Messages(name: string): set<string> {
    if name == "name" then {"Name is required"}
    else if name == "email" then {"Invalid email"}
    else if name == "dob" then {"Date of birth is required"}
    else if name == "role" then {"Please select a role"}
    else if name == "gender" then {"Please select gender"}
    else if name == "age" then {"Enter a valid age"}
    else if name == "mobile" then {"Enter 10-digit number"}
    else if name == "password" then {"Min 6 characters", "Add a special character"}
    else {}
  }

  // ---------------------------------------------------------------------------
  // How the validator tests them

  /** The index of the first `c` in `s`, or `|s|` when there is none. */
  function FirstIndex(s: string, c: char): (r: nat)
    ensures r <= |s| && (r < |s| ==> s[r] == c)
    ensures forall k :: 0 <= k < r ==> s[k] != c
    decreases |s|
  {
    if s == [] then 0
    else if s[0] == c then 0
    else 1 + FirstIndex(s[1..], c)
  }

  /** The index of the last `c` in `s`, or -1 when there is none. */
  function LastIndex(s: string, c: char): (r: int)
    ensures -1 <= r < |s| && (r >= 0 ==> s[r] == c)
    ensures forall k :: r < k < |s| ==> s[k] != c
    decreases |s|
  {
    if s == [] then -1
    else if s[|s| - 1] == c then |s| - 1
    else LastIndex(s[..|s| - 1], c)
  }

  /**
   * The email test as a split: the text before the first `@` is the local part;
   * after it, the last `.` separates the domain from the top-level domain. What
   * it accepts matches the regular expression (the converse is
   * `EmailSplitIsUnique`).
   */
  predicate EmailMatches(v: string): (b: bool)
    ensures b ==> exists i, j :: EmailShape(v, i, j)
  {
    var i := FirstIndex(v, '@');
    if i == |v| then false
    else
      var rest := v[i + 1..];
      var j := LastIndex(rest, '.');
      var b := 0 < i && AllLocal(v[..i]) &&
        0 < j && AllDomain(rest[..j]) &&
        |rest| - j - 1 >= 2 && AllLetters(rest[j + 1..]);
      assert b ==> v[i + 1..i + 1 + j] == rest[..j] && v[i + 1 + j + 1..] == rest[j + 1..] && EmailShape(v, i, i + 1 + j);
      b
  }

  /** The split test accepts exactly the addresses the regular expression accepts. */
  lemma EmailMatchesIff(v: string)
    ensures EmailMatches(v) <==> exists i, j :: EmailShape(v, i, j)
  {
    if i, j :| EmailShape(v, i, j) {
      EmailSplitIsUnique(v, i, j);
    }
  }

  /** Any match of the regular expression is the one the split test finds. */
  lemma EmailSplitIsUnique(v: string, i: int, j: int)
    requires EmailShape(v, i, j)
    ensures EmailMatches(v)
  {
    assert forall k :: 0 <= k < i ==> v[k] == v[..i][k];
    assert FirstIndex(v, '@') == i;
    var rest := v[i + 1..];
    var j' := j - i - 1;
    assert rest[j'] == '.';
    assert forall k :: j' < k < |rest| ==> rest[k] == v[j + 1..][k - j' - 1];
    assert LastIndex(rest, '.') == j';
    assert rest[..j'] == v[i + 1..j];
    assert rest[j' + 1..] == v[j + 1..];
  }

  /**
   * `/^\d+$/.test(v) && parseInt(v) > 0`: an age passes exactly when it is all
   * digits and some digit is not `0`.
   */
  predicate AgeMatches(v: string): (b: bool)
    ensures b <==> |v| > 0 && AllDigits(v) && exists k :: 0 <= k < |v| && v[k] != '0'
  {
    if |v| > 0 && AllDigits(v) then
      ParseIntOfDigits(v);
      ValueZeroIff(v);
      match ParseInt(v)
      case NaN => false
      case Int(n) => n > 0
    else false
  }

  // ---------------------------------------------------------------------------
  // The validator

  /** `validateField(name, value)`: `""` when the value passes, else the field's message. */
  function ValidateField(name: string, value: string): (r: string)
    ensures r == "" <==> Accepts(name, value)
    ensures r != "" ==> r in Messages(name)
  {
    if name == "name" then
      if Trim(value) != "" then "" else "Name is required"
    else if name == "email" then
      EmailMatchesIff(value);
      if EmailMatches(value) then "" else "Invalid email"
    else if name == "dob" then
      if value != "" then "" else "Date of birth is required"
    else if name == "role" then
      if value != "" then "" else "Please select a role"
    else if name == "gender" then
      if value != "" then "" else "Please select gender"
    else if name == "age" then
      if AgeMatches(value) then "" else "Enter a valid age"
    else if name == "mobile" then
      if |value| == 10 && AllDigits(value) then "" else "Enter 10-digit number"
    else if name == "password" then
      if |value| < 6 then "Min 6 characters"
      else if !HasSpecial(value) then "Add a special character"
      else ""
    else ""
  }

  // ---------------------------------------------------------------------------
  // Properties of the validator

  /** A field the switch does not name always passes. */
  lemma UnknownFieldPasses(name: string, value: string)
    requires name !in FieldNames
    ensures ValidateField(name, value) == ""
  {
  }

  /** The length rule is checked first, then the special-character rule. */
  lemma PasswordMessages(value: string)
    ensures |value| < 6 ==> ValidateField("password", value) == "Min 6 characters"
    ensures |value| >= 6 && !HasSpecial(value) ==> ValidateField("password", value) == "Add a special character"
    ensures |value| >= 6 && HasSpecial(value) ==> ValidateField("password", value) == ""
  {
  }

  /** An address with two `@` signs never passes: no character class admits `@`. */
  lemma {:induction false} TwoAtSignsRejected(v: string, p: int, q: int)
    requires 0 <= p < q < |v| && v[p] == '@' && v[q] == '@'
    ensures ValidateField("email", v) == "Invalid email"
  {
    if ValidateField("email", v) == "" {
      var i, j :| EmailShape(v, i, j);
      forall k | 0 <= k < |v| && k != i
        ensures v[k] != '@'
      {
        if k < i {
          assert IsLocalChar(v[..i][k]);
        } else if k < j {
          assert IsDomainChar(v[i + 1..j][k - i - 1]);
        } else if k > j {
          assert IsAsciiLetter(v[j + 1..][k - j - 1]);
        }
      }
      assert false;
    }
  }

  /** The top-level domain needs two letters: `a@b.c` fails, `a@b.co` passes. */
  lemma EmailExamples()
    ensures ValidateField("email", "a@b.c") == "Invalid email"
    ensures ValidateField("email", "a@b.co") == ""
    ensures ValidateField("email", "not-an-email") == "Invalid email"
  {
    var good, bad, none := "a@b.co", "a@b.c", "not-an-email";
    assert Accepts("email", good) by {
      assert AllLocal(good[..1]) && AllDomain(good[2..3]) && AllLetters(good[4..]);
      assert EmailShape(good, 1, 3);
    }
    assert !Accepts("email", bad) by {
      if i, j :| EmailShape(bad, i, j) {
        assert false;
      }
    }
    assert !Accepts("email", none) by {
      if i, j :| EmailShape(none, i, j) {
        assert false;
      }
    }
  }

  /** Zero, written with any number of zeros, is not an age; leading zeros are fine otherwise. */
  lemma AgeExamples()
    ensures ValidateField("age", "000") == "Enter a valid age"
    ensures ValidateField("age", "007") == ""
  {
    var zeros, seven := "000", "007";
    assert Accepts("age", seven) by {
      assert AllDigits(seven) && seven[2] != '0';
    }
    assert !Accepts("age", zeros) by {
      assert forall k :: 0 <= k < |zeros| ==> zeros[k] == '0';
    }
  }

  /** Only a value of ten ASCII digits is a mobile number. */
  lemma MobileExamples()
    ensures ValidateField("mobile", "9876543210") == ""
    ensures ValidateField("mobile", "987654321") == "Enter 10-digit number"
    ensures ValidateField("mobile", "98765-4321") == "Enter 10-digit number"
  {
    assert !IsDigit("98765-4321"[5]);
  }

  /** A name of blanks only is missing; `dob`, `role` and `gender` are not trimmed. */
  lemma PresenceExamples()
    ensures ValidateField("name", " \t ") == "Name is required"
    ensures ValidateField("name", " Ann ") == ""
    ensures ValidateField("dob", " ") == ""
    ensures ValidateField("role", "") == "Please select a role"
  {
    var blanks, padded := " \t ", " Ann ";
    assert !Accepts("name", blanks) by {
      assert forall k :: 0 <= k < |blanks| ==> IsJsWhitespace(blanks[k]);
    }
    assert Accepts("name", padded) by {
      assert !IsJsWhitespace(padded[1]);
    }
  }

}
