# Employee registration: field validation, form gating and ID allocation

This project models the two pieces of logic in the employee-registration app.

The first is the registration form on the client. `validateField` checks one
field value against its rule: a regular expression, a presence check or a
length rule. It returns `''` or a fixed message. `handleChange` stores the typed
value and its message in two maps, `formData` and `formErrors`. `isFormValid`
gates `handleSubmit`, which sends the form with the password hashed.

The second is the registration endpoint on the server. `registerUser` refuses an
email that is already stored (400). Otherwise it hashes the password, asks
`generateEmployeeId` for the next identifier and saves the record (201). Any
throw answers 500. `generateEmployeeId` reads the most recently created record.
It strips the first `EMP` from that record's identifier, reads the rest with
`parseInt`, adds one and writes `EMP<n>`. With no record, or a record without an
identifier, the result is `EMP1001`.

Modules:

- `Wrappers`: `Option`.
- `Numerals`: the value of a digit string in a radix, and the decimal rendering
  of a natural number, with their round trips.
- `JsRuntime`: the JavaScript built-ins the core relies on. These are `trim`
  (with the ECMAScript whitespace set), `replace` with a string pattern and a
  replacement without `$` (first occurrence only), `parseInt` with no radix
  (leading whitespace, a sign, a `0x` prefix, the longest digit prefix, NaN),
  `+ 1`, and a number's rendering in a template literal.
- `FieldValidation`: `ValidateField` as the code computes it, and `Accepts`,
  which gives each rule as the language its regular expression accepts. They
  are proved to agree.
- `RegistrationForm`: the class `Form`, with the two maps as fields.
- `UserController`: the allocator; `Register`, the endpoint as a function of
  the collection; and the class `UserStore`, whose `RegisterUser` method runs
  the endpoint step by step and is proved equal to `Register`.

The user collection is a sequence in creation order, so "the most recent record"
is its last element. The hasher (bcrypt) is a function parameter `hash`. The
step that throws, if any, is a parameter `fault` (lookup, hash, allocate or
save).

The regular expression at registration.js:26 requires a top-level domain of at
least two letters, so `a@b.c` is rejected (`FieldValidation.EmailExamples`).

## Model

| member | source | states |
|---|---|---|
| Numerals.Format | userControllerrrrr.js:12 | the rendering of a number in a template literal is a canonical decimal string: digits only, no leading zero |
| Numerals.ValueOfFormat | userControllerrrrr.js:10-12 | reading back the rendering of n in radix 10 gives n |
| Numerals.FormatOfValue | userControllerrrrr.js:10-12 | rendering the value of a canonical digit string gives that string back |
| Numerals.ValueZeroIff | registration.js:34 | a digit string has value 0 exactly when all its digits are `0` |
| Numerals.ValueLeadingZero | userControllerrrrr.js:10 | a leading `0` does not change the value that `parseInt` reads |
| Numerals.FormatInjective | userControllerrrrr.js:12 | different numbers render differently |
| JsRuntime.TrimStart | registration.js:24 | `trim` drops exactly the leading whitespace: the result is a suffix that starts with a non-blank character, and everything dropped is whitespace |
| JsRuntime.TrimEnd | registration.js:24 | `trim` drops exactly the trailing whitespace: the result is a prefix that ends with a non-blank character, and everything dropped is whitespace |
| JsRuntime.Trim | registration.js:24 | `value.trim()` is empty exactly when every character is whitespace; otherwise it starts and ends with a non-blank character |
| JsRuntime.IndexFrom | userControllerrrrr.js:10 | the index `replace` acts on is an occurrence of the pattern, and no earlier index is one |
| JsRuntime.ReplaceFirstReplacesFirst | userControllerrrrr.js:10 | `replace` with a string pattern and a replacement without `$` replaces the first occurrence and only that one; with no occurrence the text is unchanged |
| JsRuntime.ReplaceFirstAtStart | userControllerrrrr.js:10 | `replace('EMP', '')` on `EMP` + rest gives rest |
| JsRuntime.ParseIntOfDigits | userControllerrrrr.js:10 | `parseInt` of a non-empty decimal digit string is its decimal value, leading zeros included |
| JsRuntime.ParseIntNeedsDigit | userControllerrrrr.js:10 | `parseInt` yields a number only when the text holds a decimal digit; otherwise it is NaN |
| JsRuntime.ParseIntNoDigits | userControllerrrrr.js:10 | `parseInt` of text that starts with neither whitespace, a sign nor a digit is NaN |
| JsRuntime.AddOne | userControllerrrrr.js:11 | `lastId + 1` is NaN exactly when `lastId` is, and otherwise larger than it |
| JsRuntime.NumberToString | userControllerrrrr.js:12 | a number always renders as non-empty text |
| FieldValidation.FirstIndex | registration.js:26 | the first `@` of a value: no earlier character is `@` |
| FieldValidation.LastIndex | registration.js:26 | the last `.` of a value: no later character is `.` |
| FieldValidation.EmailMatches | registration.js:26 | every value the split test accepts matches the email regular expression |
| FieldValidation.EmailMatchesIff | registration.js:26 | the split test (local part before the first `@`, top-level domain after the last `.`) accepts exactly the strings the email regular expression matches |
| FieldValidation.EmailSplitIsUnique | registration.js:26 | any way of matching the email regular expression is the split the test finds |
| FieldValidation.AgeMatches | registration.js:34 | an age passes `/^\d+$/` and `parseInt(value) > 0` exactly when it is non-empty, all digits, and has a digit other than `0` |
| FieldValidation.ValidateField | registration.js:21-44 | the result is `''` exactly when the value is in the field's language (`Accepts`), and otherwise one of that field's fixed messages |
| FieldValidation.UnknownFieldPasses | registration.js:41-42 | a field name outside the switch always passes |
| FieldValidation.PasswordMessages | registration.js:38-40 | fewer than 6 characters gives `Min 6 characters` whatever the content; otherwise no special character gives `Add a special character`; otherwise the password passes |
| FieldValidation.TwoAtSignsRejected | registration.js:26 | a value with two `@` signs is never a valid email |
| FieldValidation.EmailExamples | registration.js:26 | `a@b.c` and `not-an-email` are invalid, `a@b.co` is valid |
| FieldValidation.AgeExamples | registration.js:34 | `000` is not a valid age, `007` is |
| FieldValidation.MobileExamples | registration.js:36 | ten digits pass; nine digits, or ten characters with a `-`, do not |
| FieldValidation.PresenceExamples | registration.js:24-32 | a name of blanks is missing and a padded name is not; `dob` is not trimmed; an empty `role` is missing |
| RegistrationForm.Form.constructor | registration.js:8-19 | the form starts with every field empty, no messages, and the form invariant holding |
| RegistrationForm.Form.IsFormValid | registration.js:52-54 | while the invariant holds, the gate is open exactly when every field is non-empty and passes its rule |
| RegistrationForm.Form.HandleChange | registration.js:46-50 | the edited key takes the value and its verdict, every other key of both maps is unchanged, the invariant is kept, and an empty or invalid value closes the gate |
| RegistrationForm.Form.HandleSubmit | registration.js:56-65 | a body is produced exactly when the gate is open; it is then the form with the password hashed, and every field in it passes |
| UserController.EmpIdInjective | userControllerrrrr.js:12 | different numbers give different identifiers |
| UserController.GenerateEmployeeId | userControllerrrrr.js:5-13 | the generated identifier always starts with `EMP` and has something after it |
| UserController.GenerateDefaults | userControllerrrrr.js:6-9 | with no record, or a last record whose identifier is missing or empty, the result is `EMP1001` |
| UserController.GenerateNext | userControllerrrrr.js:10-12 | after `EMP` + digits d comes `EMP` + the rendering of value(d) + 1; its suffix is canonical and numerically larger than d |
| UserController.SuffixValue | userControllerrrrr.js:10 | stripping `EMP` from `EMP` + digits and parsing gives the digits' value |
| UserController.GenerateAfterEmpId | userControllerrrrr.js:10-12 | after `EMP<n>` comes `EMP<n+1>` |
| UserController.GenerateExample | userControllerrrrr.js:10-12 | `EMP1042` is followed by `EMP1043` |
| UserController.GenerateDropsLeadingZeros | userControllerrrrr.js:10-12 | `EMP0099` is followed by `EMP100` |
| UserController.GenerateAfterNaN | userControllerrrrr.js:10-12 | a last identifier `EMPNaN` is followed by `EMPNaN`: no error is raised |
| UserController.FindByEmail | userControllerrrrr.js:20 | the lookup finds a record exactly when one has the email, and what it finds is a stored record with that email |
| UserController.SequentialIdsDistinct | userControllerrrrr.js:5-13 | sequentially numbered records have pairwise different identifiers |
| UserController.NewUser | userControllerrrrr.js:31-41 | the new record carries the given identifier and holds the request with the password replaced by its hash |
| UserController.Register | userControllerrrrr.js:15-50 | the endpoint answers 400 exactly for a known email looked up without a throw, 500 exactly for a throw at the lookup or at a later step that is reached, and 201 exactly for a new email with no throw; on 400 and 500 nothing is stored and no identifier is sent; on 201 exactly one record is appended, holding the request with the hashed password and the identifier the response sends |
| UserController.RegisterKeepsEmailsDistinct | userControllerrrrr.js:20-43 | on any collection whose emails are distinct, registration keeps them distinct, whatever the identifiers |
| UserController.RegisterDuplicate | userControllerrrrr.js:20-23 | a known email answers 400 with the duplicate message, allocates nothing and leaves the collection unchanged |
| UserController.RegisterFault | userControllerrrrr.js:46-49 | a throw at any step that is reached answers 500 `Server error` and leaves the collection unchanged |
| UserController.RegisterSuccess | userControllerrrrr.js:26-44 | a new email with no throw appends exactly one record with the generated identifier, the hashed password and the request's other fields, and answers 201 with that identifier |
| UserController.NextIdIsSequential | userControllerrrrr.js:5-13 | on records numbered `EMP1001`, `EMP1002`, ... the allocator hands out the next number |
| UserController.AppendKeepsInvariant | userControllerrrrr.js:31-43 | appending a record with a new email and the next identifier keeps emails distinct and identifiers sequential |
| UserController.RegisterPreservesInvariant | userControllerrrrr.js:15-50 | registration keeps emails distinct and identifiers sequential; it either leaves the collection as it was, or answers 201 with the next identifier and keeps every earlier record |
| UserController.SuccessiveRegistrations | userControllerrrrr.js:15-50 | from an empty collection, k requests with distinct emails all succeed, in order, with `EMP1001` ... `EMP(1000+k)`, and the records keep the requests' emails |
| UserController.UserStore.constructor | userSchemaa.js:3-15 | an empty collection satisfies the store invariant |
| UserController.UserStore.RegisterUser | userControllerrrrr.js:15-50 | the step-by-step endpoint keeps the store invariant and has the outcome of `Register`; the collection changes only on 201, by one record appended with the next identifier and the hashed password |

## Left out

- Rendering, Bootstrap styling, alerts, and the employee manager page. These are user interface only.
- The HTTP request the form sends and the Express routes. `HandleSubmit` returns the request body instead of posting it, and the endpoint takes the request as a value.
- bcrypt is the parameter `hash`. The client hashes the password before posting and the server hashes it again. The model keeps this double hash but proves nothing about it.
- Mongoose:
  - Query semantics become operations on the sequence. `findOne().sort({createdAt: -1})` is the last element, and `findOne({email})` is the first record with that email.
  - Type casting (`dob` as a date, `age` as a number), `required` and `unique` enforcement, and timestamps are left out. A save that Mongoose rejects is a throw at the save step.
- The vendor endpoints. They pass through to Mongoose and hold no logic.
- Concurrency. Two requests racing between reading the last identifier and saving could both get the same identifier. The model runs one request at a time.
- UserController.UserStore.RegisterUser: the store invariant (distinct emails and identifiers `EMP1001`, `EMP1002`, ... in order) assumes the collection starts empty and only this endpoint adds records. Distinct emails alone are kept on any collection (`UserController.RegisterKeepsEmailsDistinct`).
- JsRuntime.ReplaceFirstReplacesFirst: `$` patterns (`$$`, `$&`, `` $` ``, `$'`) in the replacement string are not expanded, so the model agrees with `replace` only for replacements without `$`; the code only ever replaces with `''`.
- `console.error` output on the 500 path.
- JsRuntime.ParseInt: numbers above 2^53 lose precision in JavaScript, and integers from 1e21 up render in exponent form. A digit run past Number.MAX_VALUE (about 309 digits) reads as Infinity, so the code writes `EMPInfinity` and then `EMPNaN`; the model keeps counting. The model uses unbounded integers and plain decimal rendering. A negative zero is not kept apart from zero.
- FieldValidation.ValidateField: for passwords, JavaScript's `length` counts UTF-16 code units, so a character outside the Basic Multilingual Plane counts twice. In the model every character counts once.
- React state batching. Each `HandleChange` call applies its two map updates at once, as React does when it renders next.
