/**
 * The validation and normalisation block of the estimator's button handler:
 * the decoded reply of the language model is either rejected, with the
 * outcome that decides which message the user sees, or turned into the
 * feature triple (gender code, birth year, 5 km time in seconds) that the
 * regression model is given.
 *
 * Each `st.stop()` ends the request with the messages shown so far; the
 * exceptions raised along the way (a comparison with None, a failed int() or
 * float()) are caught by the handler's `except Exception` and shown as a
 * generic error. Both are outcomes here.
 */
module Validator {
  import opened Wrappers
  import opened JsonValue
  import opened PyText
  import opened PyConvert

  const Female: string := "Kobieta"
  const Male: string := "Mężczyzna"

  /** The fixed reference year the birth year is computed from (not the current date). */
  const ReferenceYear: int := 2025

  /** The triple handed to the regression model, in its column order. */
  datatype Features = Features(genderCode: int, birthYear: int, fiveKmSeconds: Float)

  /** What the validation block ends in. */
  datatype Outcome =
    | Accepted(features: Features)
    | InvalidData(decodeFailed: bool)  // the reply is not a JSON object; decodeFailed: json.loads raised
    | TimeOutOfRange                   // warning: the 5 km time is not within 20-60 minutes
    | Unrecognised                     // error: unknown gender label, or no age
    | AgeOutOfRange                    // warning: the age is not within 18-100
    | NotPositive                      // error: age or time not greater than zero
    | Crashed(fault: Fault)            // the generic error handler caught an exception

  /**
   * Which test rejects the 5 km time: the one the source writes,
   * `t < 20 or t > 60`, or the one it evidently means, `not (20 <= t <= 60)`.
   * They differ only for NaN.
   */
  datatype TimeGuard = AsWritten | Intended

  predicate TimeRejected(t: Float, guard: TimeGuard) {
    match guard
    case AsWritten => Below(t, 20.0) || Above(t, 60.0)
    case Intended => !(AtLeast(t, 20.0) && AtMost(t, 60.0))
  }

  function LabelOf(m: map<string, Json>): Json {
    Get(m, "plec")
  }

  function AgeOf(m: map<string, Json>): Conv<Option<int>> {
    OptionalInt(Get(m, "wiek"))
  }

  function TimeOf(m: map<string, Json>): Conv<Option<Float>> {
    OptionalFloat(Get(m, "czas_5km"))
  }

  predicate IsKnownLabel(v: Json) {
    v == JStr(Female) || v == JStr(Male)
  }

  /**
   * `1 if plec.lower().startswith("m") else 0`: of all characters only 'M'
   * and 'm' lower-case to a text that starts with "m", so the test reads the
   * first character.
   */
  function GenderCode(plec: string): (code: int)
    ensures code == 0 || code == 1
    ensures code == 1 <==> AsciiLower(plec) != [] && AsciiLower(plec)[0] == 'm'
  {
    if plec != [] && (plec[0] == 'm' || plec[0] == 'M') then 1 else 0
  }

  /** The validation block, with the given test for the 5 km time. */
  function ValidateWith(reply: Decoded, guard: TimeGuard): (r: Outcome)
    ensures r != NotPositive
    ensures r.Accepted? ==> r.features.genderCode in {0, 1}
    ensures r.Accepted? ==> ReferenceYear - 100 <= r.features.birthYear <= ReferenceYear - 18
  {
    match reply
    case DecodeFailed => InvalidData(true)
    case LoadRaised => Crashed(LoadError)
    case Decoded(v) =>
      if !v.JObj? then InvalidData(false)
      else
        var m := v.members;
        match AgeOf(m)
        case Raised(f) => Crashed(f)
        case Converted(age) =>
          match TimeOf(m)
          case Raised(f) => Crashed(f)
          case Converted(time) =>
            if time.None? then Crashed(NoneCompared)
            else if TimeRejected(time.value, guard) then TimeOutOfRange
            else if !IsKnownLabel(LabelOf(m)) || age.None? then Unrecognised
            else if age.value < 18 || age.value > 100 then AgeOutOfRange
            else if age.value <= 0 || AtMost(time.value, 0.0) then NotPositive
            else Accepted(Features(GenderCode(LabelOf(m).s), ReferenceYear - age.value, Times(time.value, 60.0)))
  }

  /** The block as written. An accepted 5 km time is 20-60 minutes, or NaN. */
  function Validate(reply: Decoded): (r: Outcome)
    ensures r.Accepted? ==>
      var t := r.features.fiveKmSeconds;
      t.NaN? || (t.Finite? && 1200.0 <= t.value <= 3600.0)
  {
    ValidateWith(reply, AsWritten)
  }

  /** The block with the 5 km time test it evidently intends: no NaN gets through. */
  function ValidateIntended(reply: Decoded): (r: Outcome)
    ensures r.Accepted? ==>
      var t := r.features.fiveKmSeconds;
      t.Finite? && 1200.0 <= t.value <= 3600.0
  {
    ValidateWith(reply, Intended)
  }

  predicate IsObject(reply: Decoded) {
    reply.Decoded? && reply.value.JObj?
  }

  /**
   * A reply json.loads could not decode, or decoded to anything but an object,
   * is rejected as invalid data, and only those; another exception from
   * json.loads escapes to the generic error handler.
   */
  lemma InvalidDataExactly(reply: Decoded)
    ensures Validate(reply).InvalidData? <==> reply.DecodeFailed? || (reply.Decoded? && !reply.value.JObj?)
    ensures Validate(reply) == InvalidData(true) <==> reply == DecodeFailed
    ensures Validate(reply) == Crashed(LoadError) <==> reply == LoadRaised
  {
  }

  /**
   * The generic error is shown exactly when json.loads raised past its
   * handler, int() of the age or float() of the time raised, or the time is
   * missing; the exception shown is the first one raised.
   */
  lemma CrashedExactly(reply: Decoded)
    ensures Validate(reply).Crashed? <==>
      || reply == LoadRaised
      || (&& IsObject(reply)
          && (|| AgeOf(reply.value.members).Raised?
              || TimeOf(reply.value.members).Raised?
              || TimeOf(reply.value.members) == Converted(None)))
    ensures IsObject(reply) && AgeOf(reply.value.members).Raised? ==>
      Validate(reply) == Crashed(AgeOf(reply.value.members).fault)
    ensures IsObject(reply) && AgeOf(reply.value.members).Converted? && TimeOf(reply.value.members).Raised? ==>
      Validate(reply) == Crashed(TimeOf(reply.value.members).fault)
  {
  }

  /**
   * The time warning is shown exactly when the age converted and the 5 km time
   * converted to a value below 20 or above 60; 20 and 60 themselves pass. The
   * gender label plays no part: the time is checked first.
   */
  lemma TimeWarningExactly(reply: Decoded)
    ensures Validate(reply) == TimeOutOfRange <==>
      && IsObject(reply)
      && AgeOf(reply.value.members).Converted?
      && TimeOf(reply.value.members).Converted?
      && TimeOf(reply.value.members).value.Some?
      && (Below(TimeOf(reply.value.members).value.value, 20.0)
          || Above(TimeOf(reply.value.members).value.value, 60.0))
  {
  }

  /** Replacing the gender label does not change a time warning into another outcome. */
  lemma TimeWarningIgnoresLabel(m: map<string, Json>, plec: Json)
    requires Validate(Decoded(JObj(m))) == TimeOutOfRange
    ensures Validate(Decoded(JObj(m["plec" := plec]))) == TimeOutOfRange
  {
    var m' := m["plec" := plec];
    assert Get(m', "wiek") == Get(m, "wiek");
    assert Get(m', "czas_5km") == Get(m, "czas_5km");
  }

  /**
   * A missing or null 5 km time never yields the time warning: the comparison
   * with None raises, and the generic error handler reports it (unless int()
   * of the age raised first).
   */
  lemma MissingTimeCrashes(m: map<string, Json>)
    requires Get(m, "czas_5km") == JNull
    ensures Validate(Decoded(JObj(m))).Crashed?
    ensures AgeOf(m).Converted? ==> Validate(Decoded(JObj(m))) == Crashed(NoneCompared)
  {
  }

  /**
   * With the time in range, the data is unrecognised exactly when the gender
   * label is not literally "Kobieta" or "Mężczyzna", or the age is missing.
   */
  lemma UnrecognisedExactly(reply: Decoded)
    ensures Validate(reply) == Unrecognised <==>
      && IsObject(reply)
      && AgeOf(reply.value.members).Converted?
      && TimeOf(reply.value.members).Converted?
      && TimeOf(reply.value.members).value.Some?
      && !TimeRejected(TimeOf(reply.value.members).value.value, AsWritten)
      && (!IsKnownLabel(LabelOf(reply.value.members)) || AgeOf(reply.value.members).value.None?)
  {
  }

  /** With time, label and age present and valid in kind, an age outside 18-100 gives the age warning. */
  lemma AgeWarningExactly(reply: Decoded)
    ensures Validate(reply) == AgeOutOfRange <==>
      && IsObject(reply)
      && AgeOf(reply.value.members).Converted?
      && AgeOf(reply.value.members).value.Some?
      && TimeOf(reply.value.members).Converted?
      && TimeOf(reply.value.members).value.Some?
      && !TimeRejected(TimeOf(reply.value.members).value.value, AsWritten)
      && IsKnownLabel(LabelOf(reply.value.members))
      && !(18 <= AgeOf(reply.value.members).value.value <= 100)
  {
  }

  /**
   * A reply is accepted exactly when it is an object whose time passes the
   * range test, whose label is one of the two known ones and whose age lies in
   * 18-100; the features are then 1 for "Mężczyzna" and 0 for "Kobieta",
   * 2025 minus the age, and the time times 60.
   */
  lemma AcceptedExactly(reply: Decoded)
    ensures Validate(reply).Accepted? <==>
      && IsObject(reply)
      && AgeOf(reply.value.members).Converted?
      && AgeOf(reply.value.members).value.Some?
      && TimeOf(reply.value.members).Converted?
      && TimeOf(reply.value.members).value.Some?
      && !TimeRejected(TimeOf(reply.value.members).value.value, AsWritten)
      && IsKnownLabel(LabelOf(reply.value.members))
      && 18 <= AgeOf(reply.value.members).value.value <= 100
    ensures Validate(reply).Accepted? ==>
      var m := reply.value.members;
      Validate(reply).features == Features(
        if LabelOf(m) == JStr(Male) then 1 else 0,
        ReferenceYear - AgeOf(m).value.value,
        Times(TimeOf(m).value.value, 60.0))
  {
    if Validate(reply).Accepted? {
      GenderCodeOfLabels();
    }
  }

  /** The prefix test on the two accepted labels gives 0 for "Kobieta" and 1 for "Mężczyzna". */
  lemma GenderCodeOfLabels()
    ensures GenderCode(Female) == 0 && GenderCode(Male) == 1
  {
  }

  /** The worked example: Kobieta, 25 years, 22.5 minutes gives (0, 2000, 1350.0). */
  lemma SampleReply()
    ensures Validate(Decoded(JObj(map["plec" := JStr(Female), "wiek" := JInt(25), "czas_5km" := JFloat(Finite(22.5))])))
         == Accepted(Features(0, 2000, Finite(1350.0)))
  {
    var m := map["plec" := JStr(Female), "wiek" := JInt(25), "czas_5km" := JFloat(Finite(22.5))];
    assert Get(m, "plec") == JStr(Female);
    assert Get(m, "wiek") == JInt(25);
    assert Get(m, "czas_5km") == JFloat(Finite(22.5));
  }

  /** Lower-case or abbreviated labels are not recognised, even though they would pass the prefix test. */
  lemma LabelMatchIsExact(plec: string)
    requires plec == "kobieta" || plec == "mężczyzna" || plec == "K" || plec == "M"
    ensures Validate(Decoded(JObj(map["plec" := JStr(plec), "wiek" := JInt(25), "czas_5km" := JFloat(Finite(22.5))])))
         == Unrecognised
  {
    var m := map["plec" := JStr(plec), "wiek" := JInt(25), "czas_5km" := JFloat(Finite(22.5))];
    assert Get(m, "plec") == JStr(plec);
    assert Get(m, "wiek") == JInt(25);
    assert Get(m, "czas_5km") == JFloat(Finite(22.5));
    assert plec != Female && plec != Male by {
      assert |Female| == 7 && |Male| == 9;
      assert plec[0] != Female[0] || |plec| != 7;
    }
  }

  /** The as-written time test and the intended one disagree exactly on NaN. */
  lemma GuardsDifferOnlyOnNaN(t: Float)
    ensures TimeRejected(t, AsWritten) != TimeRejected(t, Intended) <==> t.NaN?
  {
  }

  /**
   * As written, a NaN 5 km time (JSON `NaN`, or the text "nan") passes both
   * range comparisons and the positivity check, and is accepted.
   */
  lemma NaNTimeAccepted()
    ensures Validate(Decoded(JObj(map["plec" := JStr(Female), "wiek" := JInt(25), "czas_5km" := JFloat(NaN)])))
         == Accepted(Features(0, 2000, NaN))
  {
    var m := map["plec" := JStr(Female), "wiek" := JInt(25), "czas_5km" := JFloat(NaN)];
    assert Get(m, "plec") == JStr(Female);
    assert Get(m, "wiek") == JInt(25);
    assert Get(m, "czas_5km") == JFloat(NaN);
  }

  /** With the intended test, the same reply gets the time warning. */
  lemma NaNTimeRejectedWhenIntended()
    ensures ValidateIntended(Decoded(JObj(map["plec" := JStr(Female), "wiek" := JInt(25), "czas_5km" := JFloat(NaN)])))
         == TimeOutOfRange
  {
    var m := map["plec" := JStr(Female), "wiek" := JInt(25), "czas_5km" := JFloat(NaN)];
    assert Get(m, "wiek") == JInt(25);
    assert Get(m, "czas_5km") == JFloat(NaN);
  }

  /** The intended validation agrees with the source on every reply whose 5 km time is not NaN. */
  lemma IntendedAgreesUnlessNaN(reply: Decoded)
    requires !(IsObject(reply) && TimeOf(reply.value.members) == Converted(Some(NaN)))
    ensures ValidateIntended(reply) == Validate(reply)
  {
    if IsObject(reply) && TimeOf(reply.value.members).Converted? && TimeOf(reply.value.members).value.Some? {
      GuardsDifferOnlyOnNaN(TimeOf(reply.value.members).value.value);
    }
  }

  /** An age written with a fraction makes int() raise, which the generic error handler reports. */
  lemma FractionalAgeCrashes()
    ensures Validate(Decoded(JObj(map["plec" := JStr(Female), "wiek" := JStr("25.5"), "czas_5km" := JFloat(Finite(22.5))])))
         == Crashed(IntOfBadText("25.5"))
  {
    var m := map["plec" := JStr(Female), "wiek" := JStr("25.5"), "czas_5km" := JFloat(Finite(22.5))];
    assert Get(m, "wiek") == JStr("25.5");
    FractionRejected();
  }

  /** int() does not skip a leading U+001C, so such an age ends in the generic error. */
  lemma FileSeparatorAgeCrashes()
    ensures Validate(Decoded(JObj(map["plec" := JStr(Female), "wiek" := JStr("\U{1C}25"), "czas_5km" := JFloat(Finite(22.5))])))
         == Crashed(IntOfBadText("\U{1C}25"))
  {
    var m := map["plec" := JStr(Female), "wiek" := JStr("\U{1C}25"), "czas_5km" := JFloat(Finite(22.5))];
    assert Get(m, "wiek") == JStr("\U{1C}25");
    FileSeparatorNotSkipped();
  }

  /** A 5 km time given as text leads to the same outcome as the number float() reads from it. */
  lemma TimeTextActsAsNumber(m: map<string, Json>, text: string, x: Float)
    requires Get(m, "czas_5km") == JStr(text) && ParseFloat(text) == Some(x)
    ensures Validate(Decoded(JObj(m))) == Validate(Decoded(JObj(m["czas_5km" := JFloat(x)])))
  {
    var m' := m["czas_5km" := JFloat(x)];
    assert Get(m', "plec") == Get(m, "plec");
    assert Get(m', "wiek") == Get(m, "wiek");
    assert TimeOf(m') == TimeOf(m);
  }

  /** As written, the text "nan" as the 5 km time is accepted too. */
  lemma NaNTextAccepted()
    ensures Validate(Decoded(JObj(map["plec" := JStr(Female), "wiek" := JInt(25), "czas_5km" := JStr("nan")])))
         == Accepted(Features(0, 2000, NaN))
  {
    var m := map["plec" := JStr(Female), "wiek" := JInt(25), "czas_5km" := JStr("nan")];
    assert Get(m, "plec") == JStr(Female);
    assert Get(m, "wiek") == JInt(25);
    assert Get(m, "czas_5km") == JStr("nan");
    NaNExample();
  }
}
