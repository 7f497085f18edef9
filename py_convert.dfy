/**
 * Python's built-in int() and float() applied to a decoded JSON value, and the
 * comparisons of a Python float with a number. A conversion either produces a
 * value or raises; the exception is kept as a Fault so the caller can tell
 * which one was raised.
 */
module PyConvert {
  import opened Wrappers
  import opened JsonValue
  import opened PyText

  /** The exceptions the validation block can raise before its own checks decide. */
  datatype Fault =
    | LoadError              // json.loads raised something other than JSONDecodeError
    | NoneCompared           // TypeError: '<' between None and an int
    | IntOfBadText(text: string)    // ValueError: invalid literal for int()
    | IntOfNaN               // ValueError: cannot convert float NaN to integer
    | IntOfInfinity          // OverflowError: cannot convert float infinity to integer
    | IntOfContainer         // TypeError: int() of a list or a dict
    | FloatOfBadText(text: string)  // ValueError: could not convert string to float
    | FloatOfContainer       // TypeError: float() of a list or a dict

  datatype Conv<+T> = Converted(value: T) | Raised(fault: Fault)

  /** int(r) on a finite float: the integer part, rounding toward zero. */
  function Truncate(r: real): (n: int)
    ensures 0.0 <= r ==> n as real <= r < n as real + 1.0
    ensures r < 0.0 ==> n as real - 1.0 < r <= n as real
  {
    if r >= 0.0 then r.Floor else -((-r).Floor)
  }

  /**
   * int(v) for a non-None value v. It raises exactly for NaN, an infinity, a
   * container, or a text int() rejects; an int is kept and a finite float
   * loses its fraction.
   */
  function IntOf(v: Json): (r: Conv<int>)
    requires !v.JNull?
    ensures r.Raised? <==>
      || (v.JFloat? && !v.f.Finite?)
      || v.JArr? || v.JObj?
      || (v.JStr? && ParseInt(v.s).None?)
    ensures v.JInt? ==> r == Converted(v.i)
    ensures v.JFloat? && v.f.Finite? ==> r.Converted? && -1.0 < r.value as real - v.f.value < 1.0
    ensures v.JFloat? && v.f.Finite? ==> r == Converted(Truncate(v.f.value))
    ensures v.JBool? ==> r == Converted(if v.b then 1 else 0)
    ensures v.JFloat? && v.f.NaN? ==> r == Raised(IntOfNaN)
    ensures v.JFloat? && (v.f.PosInf? || v.f.NegInf?) ==> r == Raised(IntOfInfinity)
    ensures v.JArr? || v.JObj? ==> r == Raised(IntOfContainer)
    ensures v.JStr? && ParseInt(v.s).Some? ==> r == Converted(ParseInt(v.s).value)
    ensures v.JStr? && ParseInt(v.s).None? ==> r == Raised(IntOfBadText(v.s))
  {
    match v
    case JBool(b) => Converted(if b then 1 else 0)
    case JInt(i) => Converted(i)
    case JFloat(f) =>
      (match f
       case Finite(x) => Converted(Truncate(x))
       case NaN => Raised(IntOfNaN)
       case _ => Raised(IntOfInfinity))
    case JStr(s) =>
      (match ParseInt(s)
       case Some(n) => Converted(n)
       case None => Raised(IntOfBadText(s)))
    case _ => Raised(IntOfContainer)
  }

  /**
   * float(v) for a non-None value v. It raises exactly for a container or a
   * text float() rejects; every number is kept with its value.
   */
  function FloatOf(v: Json): (r: Conv<Float>)
    requires !v.JNull?
    ensures r.Raised? <==> v.JArr? || v.JObj? || (v.JStr? && ParseFloat(v.s).None?)
    ensures v.JInt? ==> r == Converted(Finite(v.i as real))
    ensures v.JFloat? ==> r == Converted(v.f)
    ensures v.JBool? ==> r == Converted(Finite(if v.b then 1.0 else 0.0))
    ensures v.JArr? || v.JObj? ==> r == Raised(FloatOfContainer)
    ensures v.JStr? && ParseFloat(v.s).Some? ==> r == Converted(ParseFloat(v.s).value)
    ensures v.JStr? && ParseFloat(v.s).None? ==> r == Raised(FloatOfBadText(v.s))
  {
    match v
    case JBool(b) => Converted(Finite(if b then 1.0 else 0.0))
    case JInt(i) => Converted(Finite(i as real))
    case JFloat(f) => Converted(f)
    case JStr(s) =>
      (match ParseFloat(s)
       case Some(f) => Converted(f)
       case None => Raised(FloatOfBadText(s)))
    case _ => Raised(FloatOfContainer)
  }

  /**
   * `int(v) if v is not None else None`: only None gives None; every other
   * value gives what int() gives, or raises the exception int() raises.
   */
  function OptionalInt(v: Json): (r: Conv<Option<int>>)
    ensures r == Converted(None) <==> v.JNull?
    ensures r.Raised? <==>
      || (v.JFloat? && !v.f.Finite?)
      || v.JArr? || v.JObj?
      || (v.JStr? && ParseInt(v.s).None?)
    ensures v.JInt? ==> r == Converted(Some(v.i))
    ensures v.JBool? ==> r == Converted(Some(if v.b then 1 else 0))
    ensures v.JFloat? && v.f.Finite? ==> r == Converted(Some(Truncate(v.f.value)))
    ensures v.JStr? && ParseInt(v.s).Some? ==> r == Converted(Some(ParseInt(v.s).value))
    ensures v.JFloat? && v.f.NaN? ==> r == Raised(IntOfNaN)
    ensures v.JFloat? && (v.f.PosInf? || v.f.NegInf?) ==> r == Raised(IntOfInfinity)
    ensures v.JArr? || v.JObj? ==> r == Raised(IntOfContainer)
    ensures v.JStr? && ParseInt(v.s).None? ==> r == Raised(IntOfBadText(v.s))
  {
    if v.JNull? then Converted(None)
    else match IntOf(v)
      case Converted(n) => Converted(Some(n))
      case Raised(f) => Raised(f)
  }

  /**
   * `float(v) if v is not None else None`: only None gives None; every other
   * value gives what float() gives, or raises the exception float() raises.
   */
  function OptionalFloat(v: Json): (r: Conv<Option<Float>>)
    ensures r == Converted(None) <==> v.JNull?
    ensures r.Raised? <==> v.JArr? || v.JObj? || (v.JStr? && ParseFloat(v.s).None?)
    ensures v.JInt? ==> r == Converted(Some(Finite(v.i as real)))
    ensures v.JBool? ==> r == Converted(Some(Finite(if v.b then 1.0 else 0.0)))
    ensures v.JFloat? ==> r == Converted(Some(v.f))
    ensures v.JStr? && ParseFloat(v.s).Some? ==> r == Converted(Some(ParseFloat(v.s).value))
    ensures v.JArr? || v.JObj? ==> r == Raised(FloatOfContainer)
    ensures v.JStr? && ParseFloat(v.s).None? ==> r == Raised(FloatOfBadText(v.s))
  {
    if v.JNull? then Converted(None)
    else match FloatOf(v)
      case Converted(f) => Converted(Some(f))
      case Raised(e) => Raised(e)
  }

  /** x < k for a Python float x; NaN compares false. */
  predicate Below(x: Float, k: real) {
    match x
    case Finite(v) => v < k
    case NegInf => true
    case _ => false
  }

  /** x > k for a Python float x; NaN compares false. */
  predicate Above(x: Float, k: real) {
    match x
    case Finite(v) => v > k
    case PosInf => true
    case _ => false
  }

  /** x <= k for a Python float x; NaN compares false. */
  predicate AtMost(x: Float, k: real) {
    match x
    case Finite(v) => v <= k
    case NegInf => true
    case _ => false
  }

  /** k <= x for a Python float x; NaN compares false. */
  predicate AtLeast(x: Float, k: real) {
    match x
    case Finite(v) => k <= v
    case PosInf => true
    case _ => false
  }

  /** x * k for a Python float x and a positive k. */
  function Times(x: Float, k: real): (r: Float)
    requires k > 0.0
    ensures x.NaN? <==> r.NaN?
    ensures x.Finite? <==> r.Finite?
  {
    match x
    case Finite(v) => Finite(v * k)
    case _ => x
  }

  /**
   * The comparisons are a total order everywhere except at NaN: a float is
   * below k or at least k exactly when it is not NaN.
   */
  lemma OrderedUnlessNaN(x: Float, k: real)
    ensures (Below(x, k) || AtLeast(x, k)) <==> !x.NaN?
    ensures (Above(x, k) || AtMost(x, k)) <==> !x.NaN?
    ensures !(Below(x, k) && AtLeast(x, k)) && !(Above(x, k) && AtMost(x, k))
  {
  }

  /**
   * int() of a numeric text agrees with int() of the number, int(str(n)) ==
   * int(n), up to MaxStrDigits digits; a longer text raises ValueError.
   */
  lemma IntOfIntText(n: int)
    ensures DecimalDigits(n) <= MaxStrDigits ==> IntOf(JStr(IntText(n))) == IntOf(JInt(n)) == Converted(n)
    ensures DecimalDigits(n) > MaxStrDigits ==> IntOf(JStr(IntText(n))) == Raised(IntOfBadText(IntText(n)))
  {
    IntTextRoundTrip(n);
  }

  /** float() of a numeric text agrees with float() of the number: float(str(n)) == float(n). */
  lemma FloatOfIntText(n: int)
    ensures FloatOf(JStr(IntText(n))) == FloatOf(JInt(n)) == Converted(Finite(n as real))
  {
    IntTextAsFloat(n);
  }
}
