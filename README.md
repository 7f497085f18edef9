# Half-marathon time estimator: validation, time formatting and comment bands

The estimator is a Streamlit page. A user describes themselves in free text.
A language model turns that text into a small JSON object with the keys
`plec` (gender label), `wiek` (age) and `czas_5km` (5 km time in minutes).
A regression model predicts a half-marathon time in seconds from it. This
project models the page's decision logic on values:

- **Validation and normalisation** (`Validator`). The decoded reply either
  ends in one of the page's rejections or becomes the feature triple
  (gender code, birth year, 5 km time in seconds). This follows the code's
  branch order:
  1. JSON decode failure, or a reply that is not an object (another
     exception from json.loads escapes to the generic error);
  2. int() of the age and float() of the 5 km time, either of which may raise;
  3. the 20-60 minute time check;
  4. the exact gender label and a present age;
  5. the 18-100 age check;
  6. the greater-than-zero check.

  `st.stop()` ends the request without reaching the `except Exception`
  handler. Every exception raised on the way is shown by that handler as a
  generic error. Both kinds of ending are outcomes of the model.
- **Python semantics the validation relies on** (`PyText`, `PyConvert`,
  `JsonValue`):
  - a Python float is a real, +inf, -inf or NaN, and NaN compares false;
  - int() and float() of JSON values, including the text forms int() and
    float() accept: a sign and digits with single underscores, and for
    float() a fraction, an exponent, and `inf`/`infinity`/`nan` in any ASCII
    case. Around the number they skip the ASCII space, tab to carriage
    return, and the non-ASCII characters `str.isspace()` accepts, but not
    U+001C to U+001F. int() rejects a text of more than 4300 digits;
  - int() of a float truncates toward zero;
  - `dict.get` returns None for a missing key.
- **The HH:MM:SS formatter** (`TimeFormat`). Each field is `:02`-formatted,
  the split uses `//` and `%`, and the hours are unbounded. The model includes
  the inverse reader used to prove that nothing is lost.
- **The comment bands** (`CommentBand`). This is the overlapping if/elif chain
  over the predicted seconds. `Messages` holds the warning and error texts
  each outcome shows and the success message that combines the formatted
  time and the band's remark.

Three consequences of the branch order and the exact tests the code uses:

- A missing or null `czas_5km` is not reported as out of range. The
  comparison `None < 20` raises TypeError, and the generic error handler
  reports it.
- The gender label must be exactly `"Kobieta"` or `"Mężczyzna"`. The
  `lower().startswith("m")` test only decides the code of a label that is
  already accepted.
- The time check comes before the label and age-type check. A reply with a
  bad label and a bad time therefore gets the time warning.

## Model

| member | source | states |
|---|---|---|
| Validator.ValidateWith | app.py:84-118 | The validation block, in either time test. It never ends in the "greater than zero" error, because that check is dead code after the range checks. An accepted gender code is 0 or 1, and an accepted birth year lies in 1925-2007. |
| Validator.Validate | app.py:99-118 | As written, an accepted 5 km time in seconds is either within 1200-3600 or NaN. |
| Validator.ValidateIntended | app.py:99-101 | With the range test `not (20 <= t <= 60)`, an accepted 5 km time is finite and within 1200-3600 seconds. |
| Validator.GenderCode | app.py:116 | The gender code is 0 or 1. It is 1 exactly when the lower-cased label starts with "m". |
| Validator.InvalidDataExactly | app.py:84-92 | The invalid-data error happens exactly when json.loads failed to decode or decoded to something other than an object. The decode error is also shown exactly when json.loads failed. Any other exception from json.loads ends in the generic error. |
| Validator.CrashedExactly | app.py:84-99 | The generic error happens exactly when json.loads raised past its handler, int() of the age or float() of the time raised, or the time is missing. The exception shown is the first one raised: the age's before the time's. |
| Validator.TimeWarningExactly | app.py:94-101 | The time warning happens exactly when the reply is an object, both conversions succeeded, and the time is present and below 20 or above 60. 20 and 60 themselves pass. |
| Validator.TimeWarningIgnoresLabel | app.py:99-105 | Replacing the gender label never turns a time warning into another outcome, because the time is checked first. |
| Validator.MissingTimeCrashes | app.py:96-99 | A missing or null 5 km time always ends in the generic error, never in the time warning. The error is the None comparison unless int() of the age raised first. |
| Validator.UnrecognisedExactly | app.py:103-105 | With the time in range, the unrecognised-data error happens exactly when the label is not literally one of the two known ones, or the age is missing. |
| Validator.LabelMatchIsExact | app.py:103-105 | "kobieta", "mężczyzna", "K" and "M" are all unrecognised. |
| Validator.AgeWarningExactly | app.py:107-109 | With the time, label and age valid in kind, the age warning happens exactly when the age lies outside 18-100. |
| Validator.AcceptedExactly | app.py:94-118 | A reply is accepted if and only if all earlier checks pass. The features are then 1 for "Mężczyzna" and 0 for "Kobieta", 2025 minus the age, and the time times 60. |
| Validator.GenderCodeOfLabels | app.py:116 | The prefix test gives 0 for "Kobieta" and 1 for "Mężczyzna". |
| Validator.SampleReply | app.py:116-118 | Kobieta, 25 and 22.5 give the features (0, 2000, 1350.0). |
| Validator.FractionalAgeCrashes | app.py:95 | An age given as the text "25.5" makes int() raise ValueError, and the reply ends in the generic error. |
| Validator.FileSeparatorAgeCrashes | app.py:95 | An age given as U+001C followed by "25" makes int() raise, and the reply ends in the generic error. |
| Validator.TimeTextActsAsNumber | app.py:96 | A 5 km time given as text leads to the same outcome as the number float() reads from that text. |
| Validator.GuardsDifferOnlyOnNaN | app.py:99 | The written time test and the intended one disagree on exactly the NaN times. |
| Validator.NaNTimeAccepted | app.py:99-118 | As written, a NaN 5 km time is accepted and reaches the model as NaN seconds. |
| Validator.NaNTextAccepted | app.py:96-118 | As written, the text "nan" as the 5 km time is accepted too, with NaN seconds. |
| Validator.NaNTimeRejectedWhenIntended | app.py:99-101 | With the intended test, the NaN reply gets the time warning. |
| Validator.IntendedAgreesUnlessNaN | app.py:99-118 | The intended validation gives the same outcome as the written one on every reply whose time is not NaN. |
| PyConvert.IntOf | app.py:95 | int() of a value that passed the `is not None` guard. It raises exactly for NaN, an infinity, a list or dict, or a text int() rejects, and names the exception: ValueError for NaN and bad text, OverflowError for an infinity, TypeError for a container. An int is kept, True and False become 1 and 0, a text gives the number int() reads from it, and a finite float becomes its truncation toward zero, an int less than 1 away from it. |
| PyConvert.FloatOf | app.py:96 | float() of a value that passed the `is not None` guard. It raises exactly for a list or dict (TypeError) or a text float() rejects (ValueError). An int keeps its value, True and False become 1.0 and 0.0, a text gives the number float() reads from it, and a float is kept as it is. |
| PyConvert.OptionalInt | app.py:95 | The guarded conversion of the age gives None exactly for a missing or null age. Otherwise it raises exactly where int() raises, with the same exception, and gives int()'s value for an int, a bool, a finite float and an accepted text. |
| PyConvert.OptionalFloat | app.py:96 | The guarded conversion of the 5 km time gives None exactly for a missing or null time. Otherwise it raises exactly where float() raises, with the same exception, and gives float()'s value for an int, a bool, a float and an accepted text. |
| PyConvert.Truncate | app.py:95 | int() of a finite float rounds toward zero: the result is within one of the float, on the float's side of zero. |
| PyConvert.Times | app.py:118 | Multiplying by 60 keeps a float finite, infinite or NaN. |
| PyConvert.OrderedUnlessNaN | app.py:99 | The float comparisons are a total order except at NaN, where every comparison is false. |
| PyConvert.IntOfIntText | app.py:95 | int() of an integer's text equals int() of the integer itself, up to 4300 digits. A longer text raises ValueError. |
| PyConvert.FloatOfIntText | app.py:96 | float() of an integer's text equals float() of the integer itself. |
| PyText.TrimStartRemovesSpace | app.py:95-96 | The left strip int() and float() apply to text removes exactly the leading run of whitespace. |
| PyText.TrimEndRemovesSpace | app.py:95-96 | The right strip int() and float() apply to text removes exactly the trailing run of whitespace. |
| PyText.Strip | app.py:95-96 | A stripped text neither starts nor ends with whitespace, and a text without surrounding whitespace is unchanged. |
| PyText.ParseInt | app.py:95 | A text int() accepts is, once stripped, a sign or digit, then digits and single underscores, ending in a digit, with at most 4300 digits in all. |
| PyText.ParseFloat | app.py:96 | A text float() accepts is not blank once stripped. The text of a finite value ends in a digit or a point. |
| PyText.NatTextValue | app.py:95 | The decimal digits of a natural number read back as that number. |
| PyText.IntTextRoundTrip | app.py:95 | int(str(n)) == n for every integer of at most 4300 digits. int() rejects the text of a longer one. |
| PyText.IntTextAsFloat | app.py:96 | float(str(n)) is n for every integer. |
| PyText.TenthsRead | app.py:96 | float() reads digits, a point and one more digit as the number plus that many tenths. |
| PyText.ExponentRead | app.py:96 | float() reads digits, an "e" and a signed exponent as the number times that power of ten. |
| PyText.NaNAnyCase | app.py:96 | "nan" in any ASCII case, unsigned or signed, reads as NaN. |
| PyText.InfinityAnyCase | app.py:96 | "inf" and "infinity" in any ASCII case read as +inf, or as -inf after a minus sign. |
| PyText.OtherWordRejected | app.py:96 | float() rejects every other word of ASCII letters, with or without a minus sign. |
| PyText.FractionExample | app.py:96 | float("22.5") is 22.5. |
| PyText.ExponentExample | app.py:96 | float("15e2") is 1500. |
| PyText.NaNExample | app.py:96 | float("nan") is NaN. |
| PyText.NegativeInfinityExample | app.py:96 | float("-Infinity") is -inf. |
| PyText.DecimalCommaRejected | app.py:96 | float() rejects "22,5". |
| PyText.BareExponentRejected | app.py:96 | float() rejects "1e". |
| PyText.NearWordRejected | app.py:96 | float() rejects "infinite". |
| PyText.SurroundingSpaceSkipped | app.py:95 | int(" 25\n") is 25. |
| PyText.UnderscoreSkipped | app.py:95 | int("1_000") is 1000. |
| PyText.FractionRejected | app.py:95 | int() rejects "25.5". |
| PyText.DoubleUnderscoreRejected | app.py:95 | int() rejects "1__0". |
| PyText.FileSeparatorNotSkipped | app.py:95 | int() does not skip a leading U+001C. |
| TimeFormat.Pad2 | app.py:127 | A `:02` field has at least two characters, exactly two digits for 0-99, and more characters from 100 on. |
| TimeFormat.FormatTime | app.py:127 | The text is an hours field of at least two characters, then a colon, two digits, a colon and two digits. |
| TimeFormat.Split | app.py:127 | The hours, minutes and seconds fields satisfy h*3600 + m*60 + s == total, with the minutes and seconds in 0-59. |
| TimeFormat.SignedDigitsOfPad2 | app.py:127 | Every padded field reads back as its number, including the unbounded hours. |
| TimeFormat.FormatTimeRoundTrip | app.py:127 | Reading the HH:MM:SS text back gives the same total seconds for every integer. |
| TimeFormat.FormatTimeWidth | app.py:127 | For a non-negative total the text is 8 characters below 100 hours and longer from there on, because the hours never wrap. |
| TimeFormat.OneHourExample | app.py:127 | 3661 formats as "01:01:01". |
| TimeFormat.UnderAMinuteExample | app.py:127 | 59 formats as "00:00:59". |
| TimeFormat.TenHoursExample | app.py:127 | 36000 formats as "10:00:00". |
| CommentBand.Band | app.py:139-148 | Every integer gets exactly one comment: professional on [3600,5400), excellent on [5400,7200], great on (7200,9000], good on (9000,10800], and needs-training otherwise. The overlaps at 7200 and 9000 go to the earlier branch. |
| CommentBand.BandMonotone | app.py:139-148 | From one hour on, a slower time never gets a better comment. |
| CommentBand.BandBoundaries | app.py:139-148 | The band edges are 3599, 3600, 5400, 7200, 7201, 9000, 9001, 10800 and 10801. |
| CommentBand.Remark | app.py:140-148 | Every remark is an exclamation: it ends in "!" right after a word. |
| Messages.Notices | app.py:88-113 | An accepted reply leaves no message. A failed decode leaves two errors, and every other rejection leaves exactly one message. A crash shows the exception, and every other message is a warning or an error. |
| Messages.NoticesTellOutcomesApart | app.py:88-113 | Only an accepted reply leaves no message. Only the two range checks leave a warning rather than an error. No two rejections leave the same messages. |
| Messages.SuccessMessage | app.py:140-148 | The success message starts with the lead text and ends with the remark of the estimate's band. |
| Messages.SuccessMessageShowsEstimate | app.py:127-148 | The time in the success message reads back as the predicted seconds. |
| Messages.RemarksTellBandsApart | app.py:140-148 | Each band closes the success message with its own remark. |

## Left out

- The page layout, the text area and the empty-input warning at app.py:65-67: this is UI around the core.
- The language-model call, its API key and the prompt: this is a network call to code outside this repository. The model starts from the decoded reply.
- json.loads on the reply text: the model takes its result as given. The result is a JSONDecodeError, another exception, or a JSON value, and that value may contain `NaN` and `Infinity`, which json.loads accepts. Another exception (RecursionError on deep nesting, ValueError on an integer literal of more than 4300 digits) escapes the `except json.JSONDecodeError` handler and ends in the generic error. Which texts make json.loads raise is not modelled.
- The regression model, and int() of its prediction (app.py:124-125): the formatter and the bands take the integer seconds as input.
- The progress bar, the chart, the sidebar and their sleeps (app.py:130-136, 151-167): these are display only.
- The text of the generic error message: it is Python's `str(e)`, so the model keeps only which exception was raised.
- IEEE-754 rounding and overflow: finite floats are exact reals. For example, float() of an integer too large for a double raises OverflowError in Python but not in the model, and `czas_5km * 60` is exact.
- TimeFormat.Pad2: str() and format() of an int of more than 4300 digits raise ValueError in Python, but not in the model. The seconds come from int() of a 64-bit float, which has at most 309 digits, so this cannot arise.
- int() and float() of text written with non-ASCII decimal digits (for example Arabic-Indic digits), which Python accepts: only ASCII digits are modelled, so such text takes the ValueError path.

## Findings

| source | as written | input that shows it | evidently intended | confidence | as-written member | corrected member |
|---|---|---|---|---|---|---|
| app.py:99 | `czas_5km < 20 or czas_5km > 60` lets NaN through, because both comparisons are false. The check at line 111 is also false for NaN, so the reply is accepted and NaN seconds reach the regression model. | `{"plec": "Kobieta", "wiek": 25, "czas_5km": NaN}`, or `"czas_5km": "nan"` | A 5 km time is accepted only when 20 <= t <= 60 | not executed | Validator.NaNTimeAccepted | Validator.ValidateIntended |
