/**
 * The finishing-time text shown to the user: total seconds as HH:MM:SS, each
 * field formatted with `:02` (at least two characters, zero-padded after any
 * sign) and the hours never wrapped at 24.
 *
 * The source splits with Python's `//` and `%`, which round toward minus
 * infinity; Dafny's `/` and `%` are Euclidean, and for the positive divisors
 * used here (3600 and 60) the two agree on every integer, negative ones
 * included.
 */
module TimeFormat {
  import opened Wrappers
  import opened PyText

  /** format(n, "02") for a Python int. */
  function Pad2(n: int): (t: string)
    ensures |t| >= 2
    ensures 0 <= n < 100 ==> |t| == 2 && IsDigit(t[0]) && IsDigit(t[1])
    ensures n >= 100 ==> |t| >= 3
  {
    if 0 <= n < 10 then "0" + IntText(n) else IntText(n)
  }

  /**
   * The HH:MM:SS text of a total number of seconds: an hours field of at least
   * two characters, then a colon, two digits, a colon and two digits.
   */
  function FormatTime(s: int): (t: string)
    ensures |t| >= 8 && t[|t| - 6] == ':' && t[|t| - 3] == ':'
    ensures IsDigit(t[|t| - 5]) && IsDigit(t[|t| - 4]) && IsDigit(t[|t| - 2]) && IsDigit(t[|t| - 1])
  {
    Split(s);
    ClockFields(Pad2(s / 3600), Pad2(s % 3600 / 60), Pad2(s % 60));
    Pad2(s / 3600) + ":" + Pad2(s % 3600 / 60) + ":" + Pad2(s % 60)
  }

  /** Two decimal digits, read as a number. */
  function TwoDigits(t: string): Option<nat> {
    if |t| == 2 && IsDigit(t[0]) && IsDigit(t[1]) then Some(10 * DigitValue(t[0]) + DigitValue(t[1]))
    else None
  }

  /**
   * Reads an HH:MM:SS text back into seconds: an optionally signed digit group
   * before the last two fields, then two-digit minutes and seconds below 60.
   */
  function ReadClock(t: string): Option<int> {
    if |t| < 7 || t[|t| - 6] != ':' || t[|t| - 3] != ':' then None
    else
      match (SignedDigits(t[..|t| - 6]), TwoDigits(t[|t| - 5..|t| - 3]), TwoDigits(t[|t| - 2..]))
      case (Some(h), Some(m), Some(sec)) => if m < 60 && sec < 60 then Some(3600 * h + 60 * m + sec) else None
      case _ => None
  }

  /** A two-field Pad2 reads back as its number. */
  lemma TwoDigitsOfPad2(n: int)
    requires 0 <= n < 100
    ensures TwoDigits(Pad2(n)) == Some(n)
  {
    if n >= 10 {
      var t := NatText(n);
      assert t == NatText(n / 10) + [DigitChar(n % 10)];
      assert NatText(n / 10) == [DigitChar(n / 10)];
    }
  }

  /** Every Pad2 field reads back as its number, the hours included. */
  lemma SignedDigitsOfPad2(n: int)
    ensures SignedDigits(Pad2(n)) == Some(n)
  {
    if 0 <= n < 10 {
      var t := "0" + IntText(n);
      assert t[0] == '0' && t[1] == DigitChar(n);
      assert t[..1] == "0" && t[..1][..0] == [];
      assert DigitsValue(t[..1]) == 0;
      assert t[..|t| - 1] == t[..1];
    } else {
      SignedDigitsOfIntText(n);
    }
  }

  /** The three fields of a clock text, seen from its end. */
  lemma ClockFields(h: string, m: string, sec: string)
    requires |h| >= 1 && |m| == 2 && |sec| == 2
    ensures var t := h + ":" + m + ":" + sec;
      && |t| >= 7 && t[|t| - 6] == ':' && t[|t| - 3] == ':'
      && t[..|t| - 6] == h && t[|t| - 5..|t| - 3] == m && t[|t| - 2..] == sec
  {
    var t := h + ":" + m + ":" + sec;
    var n := |h|;
    assert |t| == n + 6 && |t| - 6 == n && |t| - 3 == n + 3;
    assert t[n] == (h + ":")[n] == ':';
    assert t[n + 3] == (h + ":" + m + ":")[n + 3] == ':';
    assert t[..n] == h;
    assert t[n + 1..n + 3] == m;
    assert t[n + 4..] == sec;
  }

  /** A clock text whose three fields read back reads back as the seconds they denote. */
  lemma ReadClockOfFields(hText: string, mText: string, secText: string, h: int, m: nat, sec: nat)
    requires |hText| >= 1 && |mText| == 2 && |secText| == 2
    requires SignedDigits(hText) == Some(h) && TwoDigits(mText) == Some(m) && TwoDigits(secText) == Some(sec)
    requires m < 60 && sec < 60
    ensures ReadClock(hText + ":" + mText + ":" + secText) == Some(3600 * h + 60 * m + sec)
  {
    ClockFields(hText, mText, secText);
  }

  /** Dividing with 3600 and 60 splits a time into hours, minutes and seconds. */
  lemma Split(s: int)
    ensures 0 <= s % 3600 / 60 < 60 && 0 <= s % 60 < 60
    ensures 3600 * (s / 3600) + 60 * (s % 3600 / 60) + s % 60 == s
  {
    var r := s % 3600;
    assert s == 3600 * (s / 3600) + r;
    assert r == 60 * (r / 60) + r % 60;
    assert r % 60 == s % 60 by {
      assert s == 60 * (60 * (s / 3600) + r / 60) + r % 60;
    }
  }

  /**
   * FormatTime loses nothing: reading the text back gives the same number of
   * seconds for every integer, so the hours are never wrapped and the minutes
   * and seconds are the remainders below 60.
   */
  lemma FormatTimeRoundTrip(s: int)
    ensures ReadClock(FormatTime(s)) == Some(s)
  {
    var h, m, sec := s / 3600, s % 3600 / 60, s % 60;
    Split(s);
    SignedDigitsOfPad2(h);
    TwoDigitsOfPad2(m);
    TwoDigitsOfPad2(sec);
    ReadClockOfFields(Pad2(h), Pad2(m), Pad2(sec), h, m, sec);
  }

  /** Below 100 hours the text is exactly HH:MM:SS; from 100 hours on the hours field grows. */
  lemma FormatTimeWidth(s: int)
    requires s >= 0
    ensures s < 360000 ==> |FormatTime(s)| == 8
    ensures s >= 360000 ==> |FormatTime(s)| > 8
  {
    Split(s);
  }

  /** One hour, one minute and one second. */
  lemma OneHourExample()
    ensures FormatTime(3661) == "01:01:01"
  {
  }

  lemma UnderAMinuteExample()
    ensures FormatTime(59) == "00:00:59"
  {
  }

  lemma TenHoursExample()
    ensures FormatTime(36000) == "10:00:00"
  {
    assert NatText(10) == "10";
  }
}
