/**
 * The comment shown beside the estimated half-marathon time: an if/elif chain
 * over the total seconds whose first matching branch wins.
 */
module CommentBand {

  datatype Comment = Professional | Excellent | Great | Good | NeedsTraining

  /**
   * The chain as written: its ranges overlap at 7200 and 9000, and branch
   * order settles both in favour of the earlier branch. Its contract states
   * the resulting disjoint bands.
   */
  function Band(s: int): (c: Comment)
    ensures c == Professional <==> 3600 <= s < 5400
    ensures c == Excellent <==> 5400 <= s <= 7200
    ensures c == Great <==> 7200 < s <= 9000
    ensures c == Good <==> 9000 < s <= 10800
    ensures c == NeedsTraining <==> s < 3600 || 10800 < s
  {
    if 3600 <= s < 5400 then Professional
    else if 5400 <= s <= 7200 then Excellent
    else if 7200 <= s <= 9000 then Great
    else if 9000 <= s <= 10800 then Good
    else NeedsTraining
  }

  /** How good a band is, best first. */
  function Rank(c: Comment): nat {
    match c
    case Professional => 0
    case Excellent => 1
    case Great => 2
    case Good => 3
    case NeedsTraining => 4
  }

  /** From one hour on, a slower time never earns a better comment. */
  lemma BandMonotone(s: int, s': int)
    requires 3600 <= s <= s'
    ensures Rank(Band(s)) <= Rank(Band(s'))
  {
  }

  lemma BandBoundaries()
    ensures Band(3599) == NeedsTraining && Band(3600) == Professional
    ensures Band(5000) == Professional && Band(5400) == Excellent
    ensures Band(7200) == Excellent && Band(7201) == Great
    ensures Band(9000) == Great && Band(9001) == Good
    ensures Band(10800) == Good && Band(10801) == NeedsTraining
  {
  }

  /** The closing words of the success message for each band: an exclamation. */
  function Remark(c: Comment): (r: string)
    ensures |r| > 1 && r[|r| - 1] == '!' && r[|r| - 2] != ' '
  {
    match c
    case Professional => "To profesjonalny wynik!"
    case Excellent => "Mega wynik!"
    case Great => "Świetny wynik!"
    case Good => "Dobry wynik!"
    case NeedsTraining => "Trzeba poprawić formę - zacznij trenować!"
  }
}
