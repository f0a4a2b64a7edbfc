# password-checker in Dafny

A model of the two checks in `password_checker.py`: the password strength
scorer and the k-anonymity breach lookup against the Pwned Passwords range
API. Everything is modelled on code points. Dafny's `string` is a sequence of
`char`s, each one Unicode scalar value, and Python's `len` counts code points
the same way.

- `strength.dfy` (module `PasswordStrength`) models `check_password_strength`.
  It is a method with a running score and a feedback list, updated by six
  sequential checks. The method is proved against a specification that does
  not run the checks one after another. That specification is a list of
  criteria (minimum length 12, lowercase, uppercase, digit, special
  character). Each criterion either awards its point or contributes its
  message. The length-8 check only ever adds a point. Each `re.search` is
  "some character of the password lies in the class".
- `pytext.dfy` (module `PyText`) models the Python built-ins that the lookup
  applies to the response: `str.splitlines()`, `str.split(':')` unpacked into
  two names, and `int()`. Each one has its inverse and a round-trip lemma.
- `pwned.dfy` (module `Pwned`) models `check_pwned` once the digest exists.
  It covers splitting the digest into a 5-digit prefix and a 35-digit suffix,
  the URL that is requested, and the outcome of the request. It also models
  the loop over the response lines, which stops at the first record whose
  suffix equals the hash suffix. The outcomes are `ApiError` for `(None, 0)`,
  `Leaked(n)` for `(True, n)` and `NotLeaked` for `(False, 0)`. A fourth
  outcome, `Raised(e)`, stands for the `ValueError` that the source does not
  catch.

The SHA-1 digest is an input to the model. The HTTP GET is an input as well:
a function from the requested URL to either `RequestFailed` (any
`requests.RequestException`, including the one `raise_for_status` raises) or
`Ok(text)`.

A malformed response is not reported as a failed check. The `try` at
password_checker.py:52-57 covers only the request (lines 53-54). A failed
request returns `None, 0`, which line 57 marks as the error result, and
`main` reports that as an API error (line 91). The unpacking at line 62 and
the `int` at line 64 lie outside the `try`. `main` catches only
`KeyboardInterrupt` (line 98), so a `ValueError` from either one ends the
program. The model follows the code (`Pwned.CheckPwned`, `Pwned.Scan`). The
error-reporting behaviour is modelled separately; see Findings.

`int()` refuses a digit run longer than 4300 digits with `ValueError`. That
is the default of `sys.int_info.default_max_str_digits` in Python 3.11 and
later, and in the 3.7 to 3.10 security releases. The model fixes the limit
at that default (`PyText.MaxStrDigits`).

The feedback texts are the code's exact strings, including the leading
bullet "• ". The message "Should be at least 8 characters long." appears
whenever the password is shorter than 12 characters. That is literally what
the code does, and the model keeps it.

## Model

| member | source | states |
|---|---|---|
| PasswordStrength.Search | password_checker.py:20-35 | `re.search` of a one-character class is true exactly when some character of the string is in the class |
| PasswordStrength.CheckPasswordStrength | password_checker.py:6-40 | the imperative scorer returns exactly the criterion-list score and feedback: the length-8 point plus one point per passed criterion, and the messages of the failed criteria in checking order |
| PasswordStrength.PassedPlusFailed | password_checker.py:14-38 | each of the five criteria either adds a point or appends a message, never both and never neither |
| PasswordStrength.ScoreBounds | password_checker.py:8-38 | the score is between 0 and 6 for every password |
| PasswordStrength.ScorePlusFeedback | password_checker.py:12-38 | score plus number of messages is 5 when the length is below 8 and 6 otherwise |
| PasswordStrength.LengthMessageIff | password_checker.py:14-17 | the "at least 8 characters" message is present exactly when the length is below 12, even when the length-8 point was awarded |
| PasswordStrength.FeedbackOrdered | password_checker.py:17-38 | every message is one of the five, each at most once, in the order length, lowercase, uppercase, digit, special |
| PasswordStrength.FeedbackEmptyIffFullScore | password_checker.py:12-40 | the feedback is empty exactly when the score is 6 |
| PasswordStrength.EmptyPassword | password_checker.py:12-38 | the empty password scores 0 and receives all five messages in order |
| PasswordStrength.TenCharacterExample | password_checker.py:12-38 | "Abcdefgh1!" scores 5 and gets only the length message |
| PasswordStrength.FourteenCharacterExample | password_checker.py:12-38 | "Abcdefghijkl1!" scores 6 and gets no message |
| PyText.SplitLines | password_checker.py:60 | `splitlines` yields no lines exactly for the empty text, and no line contains a line boundary |
| PyText.LineEnds | password_checker.py:60 | every line of `splitlines` ends with one boundary ("\r\n" or a single boundary character), except that the last line may run to the end of the text |
| PyText.SplitLinesRebuild | password_checker.py:60 | `splitlines` drops only the boundaries: the lines, each followed by its ending, rebuild the text |
| PyText.SplitLinesOfTerminated | password_checker.py:60 | lines written with "\n" or "\r\n" terminators, optionally followed by an unterminated last line, are read back exactly |
| PyText.Split | password_checker.py:62 | `split(':')` yields one more field than there are ':' characters, and no field contains ':' |
| PyText.JoinSplit | password_checker.py:62 | joining the fields of a split with ':' gives the line back |
| PyText.SplitJoin | password_checker.py:62 | splitting ':'-joined fields that hold no ':' gives the fields back |
| PyText.SplitPair | password_checker.py:62 | the two-name unpacking succeeds exactly when the line holds exactly one ':', and then the line is suffix ++ ":" ++ count |
| PyText.ParseInt | password_checker.py:64 | `int(count)` succeeds only on a text that is not blank after stripping and holds at most 4300 digits, and a negative result comes from a leading '-'; otherwise it raises (None) |
| PyText.IntRejectsSeparator | password_checker.py:64 | `int(count)` raises on a count preceded by U+001F, which it does not skip as white space, and skips a leading no-break space U+00A0 |
| PyText.ParseShowInt | password_checker.py:64 | `int` reads back the decimal rendering of every integer of at most 4300 digits, and refuses a longer one |
| Pwned.SplitHash | password_checker.py:48 | prefix ++ suffix is the digest, and the prefix is its first 5 characters (fewer for a shorter string) |
| Pwned.SplitHashOfDigest | password_checker.py:45-48 | a 40-digit upper-case hex digest splits into a 5-digit prefix and a 35-digit suffix, both hexadecimal |
| Pwned.RangeUrl | password_checker.py:51 | the URL is the range endpoint followed by the hash prefix, and the prefix can be read back from it |
| Pwned.QuerySeesOnlyPrefix | password_checker.py:48-51 | two digests are queried with the same URL exactly when their first five digits agree, so only the prefix reaches the service |
| Pwned.Scan | password_checker.py:60-66 | the scan of the lines as written, stopping at the first match; it never yields the request-failure outcome, so ApiError stays distinct from every scan result |
| Pwned.ScanLeaks | password_checker.py:60-66 | the line loop with its early returns computes the scan |
| Pwned.CheckPwned | password_checker.py:42-66 | a failed request gives ApiError; otherwise the result is the scan of the body's lines for the digest's suffix |
| Pwned.ScanNotLeakedIff | password_checker.py:61-66 | not found exactly when every line is a well-formed record for another suffix |
| Pwned.ScanLeakedIff | password_checker.py:61-64 | found with count n exactly when the first record whose suffix equals the hash suffix (case-sensitive) has count n and every earlier line is a well-formed record |
| Pwned.ScanRaisedIff | password_checker.py:62-64 | the scan raises exactly when, before any matching record, a line is not two ':'-separated fields, or the matching record's count is not an integer of at most 4300 digits |
| Pwned.ScanOfRangeBody | password_checker.py:60-66 | for a body of "SUFFIX:COUNT" records ended by "\r\n", with counts of at most 4300 digits, the result is the count of the first record for the suffix, or not found when there is none |
| Pwned.MalformedLineRaises | password_checker.py:60-62 | a body holding a single empty line makes the scan raise ValueError instead of returning a result |
| Pwned.CheckPwnedGuarded | password_checker.py:52-66 | with ValueError reported as a failed check, the result is always one of the three tuples, and not found implies every line was a well-formed record for another suffix |

## Left out

- `main` (password_checker.py:68-99) is not modelled. It is the command-line layer: the `getpass` prompt, console output, rejecting an empty password, and handling `KeyboardInterrupt`.
- `hashlib.sha1(password.encode('utf-8')).hexdigest().upper()` is not modelled. It calls a foreign cryptographic library. The digest is an input, and `Pwned.IsUpperHexDigest` describes the form it has.
- `requests.get` and `raise_for_status` are network I/O. They are the `get` parameter, which returns `RequestFailed` or `Ok(text)`. HTTP status codes and how `requests` decodes the body into `.text` are not modelled.
- The `print` of the API error (password_checker.py:56) is a side effect only.
- PasswordStrength.Search: `\d` is taken as ASCII `0`-`9`. Python 3 matches every Unicode decimal digit, so a password whose only digits are non-ASCII is scored lower here than by the source.
- PyText.ParseInt: only ASCII digits are accepted. Python's `int` also accepts other Unicode decimal digits. The digit limit is fixed at its default of 4300; `sys.set_int_max_str_digits` and `PYTHONINTMAXSTRDIGITS`, which change it, are not modelled.

## Findings

| source | as written | input that shows it | evidently intended | confidence | as-written member | corrected member |
|---|---|---|---|---|---|---|
| password_checker.py:62-64 | `check_pwned` catches only `requests.RequestException`. A response line that is not exactly two ':'-separated fields, or a non-integer count on the matching line, raises `ValueError` out of the function. | a successful response whose body is "\n" (one empty line) | report that the check could not be made, `(None, 0)`, the value the function returns on an error | medium, not executed | Pwned.MalformedLineRaises | Pwned.CheckPwnedGuarded |
