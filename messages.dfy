/**
 * The messages the button handler leaves on the page: the rejections of the
 * validation block, and the success message with the formatted time and the
 * band's remark.
 */
module Messages {
  import opened Wrappers
  import opened PyConvert
  import opened Validator
  import opened TimeFormat
  import opened CommentBand

  /** The wizard emoji that opens the app's own messages. */
  const Wizard: string := "\U{1F9D9}\U{200D}\U{2642}\U{FE0F} "

  /**
   * A message on the page: st.warning, st.error, or the generic handler's
   * st.error, which reads "Wystąpił błąd: " followed by the exception's text.
   */
  datatype Notice = Warning(text: string) | Error(text: string) | ErrorFromException(fault: Fault)

  /**
   * The messages the validation block leaves on the page, in order: none for
   * an accepted reply, one for every rejection, except that a failed decode
   * shows its own error before the invalid-data error.
   */
  function Notices(o: Outcome): (ns: seq<Notice>)
    ensures ns == [] <==> o.Accepted?
    ensures |ns| == (if o.Accepted? then 0 else if o == InvalidData(true) then 2 else 1)
    ensures o.Crashed? ==> ns == [ErrorFromException(o.fault)]
    ensures forall i :: 0 <= i < |ns| && !o.Crashed? ==> ns[i].Warning? || ns[i].Error?
  {
    match o
    case Accepted(_) => []
    case InvalidData(decodeFailed) =>
      (if decodeFailed then [Error("Błąd dekodowania JSON.")] else [])
      + [Error("Nieprawidłowe dane zwrócone z API.")]
    case TimeOutOfRange => [Warning(Wizard + "Czas na 5 km musi być w zakresie 20-60 minut.")]
    case Unrecognised => [Error(Wizard + "Nie mogę rozpoznać wprowadzonych danych.")]
    case AgeOutOfRange => [Warning(Wizard + "Moje czary działają tylko dla wieku 18-100 lat.")]
    case NotPositive => [Error(Wizard + "Dane muszą być większe niż zero.")]
    case Crashed(f) => [ErrorFromException(f)]
  }

  /** The text of the last message each rejection leaves: the lengths alone tell them apart. */
  lemma LastNoticeLengths()
    ensures |Notices(InvalidData(true))| == 2 && |Notices(InvalidData(false))| == 1
    ensures |Notices(InvalidData(true))[1].text| == 34 && |Notices(InvalidData(false))[0].text| == 34
    ensures |Notices(TimeOutOfRange)[0].text| == 50
    ensures |Notices(AgeOutOfRange)[0].text| == 52
    ensures |Notices(Unrecognised)[0].text| == 45
    ensures |Notices(NotPositive)[0].text| == 37
  {
  }

  /**
   * Only an accepted reply leaves no message, only the two range checks end
   * in a warning rather than an error, and no two rejections look alike.
   */
  lemma NoticesTellOutcomesApart(o: Outcome, o': Outcome)
    ensures Notices(o) == [] <==> o.Accepted?
    ensures Notices(o) != [] && Notices(o)[0].Warning? <==> o == TimeOutOfRange || o == AgeOutOfRange
    ensures !o.Accepted? && Notices(o) == Notices(o') ==> o == o'
  {
    LastNoticeLengths();
  }

  /** The words before the time in the success message. */
  const Lead: string := Wizard + "Twój szacowany czas ukończenia półmaratonu: "

  /** The success message for an estimate of `s` seconds: the lead, the time, and the band's remark. */
  function SuccessMessage(s: int): (msg: string)
    ensures |msg| > |Lead| && msg[..|Lead|] == Lead
    ensures msg[|msg| - |Remark(Band(s))|..] == Remark(Band(s))
  {
    Lead + FormatTime(s) + ". " + Remark(Band(s))
  }

  /**
   * The success message shows the estimate itself: the time after the lead
   * reads back as `s`, and the message ends with the remark of the band of `s`.
   */
  lemma SuccessMessageShowsEstimate(s: int)
    ensures var t, rk, msg := FormatTime(s), Remark(Band(s)), SuccessMessage(s);
      && |msg| == |Lead| + |t| + 2 + |rk|
      && ReadClock(msg[|Lead|..|Lead| + |t|]) == Some(s)
      && msg[|msg| - |rk|..] == rk
  {
    var t, rk, msg := FormatTime(s), Remark(Band(s)), SuccessMessage(s);
    assert msg[|Lead|..|Lead| + |t|] == t;
    assert msg[|msg| - |rk|..] == rk;
    FormatTimeRoundTrip(s);
  }

  /** Each band closes the success message with its own remark. */
  lemma RemarksTellBandsApart(c: Comment, c': Comment)
    ensures Remark(c) == Remark(c') ==> c == c'
  {
    if c != c' {
      assert |Remark(c)| != |Remark(c')|;
    }
  }
}
