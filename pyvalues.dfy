/**
 * The handful of Python value semantics that app/utils.py relies on:
 * which values `isinstance(v, int)` accepts, how a value compares with an
 * int (and when that comparison raises), and what `str(v)` produces.
 */
module PyValues {

  /** A Python value as it can appear in the request record or as a model
      prediction. `Bool` is kept apart from `Int` because Python treats it as
      an int subclass (True is 1, False is 0). `Other` stands for a value of
      any remaining type that does not order against an int (None, a list, a
      dict, ...), carried with the text `str()` gives for it. */
  datatype PyValue =
    | Int(i: int)
    | Bool(b: bool)
    | Str(s: string)
    | Other(text: string)

  /** The exceptions the modelled code can raise. */
  datatype PyException = TypeError

  /** The outcome of evaluating a Python expression: a value, or an exception. */
  datatype Eval<T> = Returned(value: T) | Raised(error: PyException)

  /** `isinstance(v, int)`: true for ints and, since bool subclasses int, for bools. */
  predicate IsInstanceInt(v: PyValue) {
    v.Int? || v.Bool?
  }

  /** The numeric value Python uses when `v` takes part in an arithmetic
      comparison; a str or any other non-numeric value makes it raise TypeError. */
  function AsNumber(v: PyValue): (r: Eval<int>)
    ensures r.Returned? <==> IsInstanceInt(v)
  {
    match v
    case Int(n) => Returned(n)
    case Bool(b) => Returned(if b then 1 else 0)
    case Str(_) => Raised(TypeError)
    case Other(_) => Raised(TypeError)
  }

  /** The two comparison operators the module applies to numbers. */
  datatype Comparison = Lt | Le

  /** Python's `lhs < rhs` or `lhs <= rhs` where one operand is an int, as in
      every comparison the module makes: both operands are converted with
      AsNumber, left first, and the first failing conversion is raised. Two
      strs or two lists, which Python orders, are not compared here. */
  function Compare(lhs: PyValue, op: Comparison, rhs: PyValue): (r: Eval<bool>)
    ensures r.Returned? <==> IsInstanceInt(lhs) && IsInstanceInt(rhs)
  {
    match AsNumber(lhs)
    case Raised(e) => Raised(e)
    case Returned(x) =>
      match AsNumber(rhs)
      case Raised(e) => Raised(e)
      case Returned(y) => Returned(if op == Lt then x < y else x <= y)
  }

  /** One decimal digit. */
  function DigitChar(d: nat): char
    requires d < 10
  {
    "0123456789"[d]
  }

  /** The decimal digits of a natural number, most significant first, with
      no leading zero. */
  function NatToStr(n: nat): (r: string)
    ensures |r| > 0 && IsDigits(r)
    ensures r[0] == '0' ==> n == 0
    decreases n
  {
    if n < 10 then [DigitChar(n)] else NatToStr(n / 10) + [DigitChar(n % 10)]
  }

  predicate IsDigits(s: string) {
    forall k :: 0 <= k < |s| ==> '0' <= s[k] <= '9'
  }

  /** The number a string of decimal digits denotes. */
  function DigitsValue(s: string): nat
    requires IsDigits(s)
  {
    if |s| == 0 then 0 else 10 * DigitsValue(s[..|s| - 1]) + (s[|s| - 1] - '0') as nat
  }

  /** Reading the digits of `str(n)` back gives `n`. */
  lemma {:induction false} NatToStrRoundTrip(n: nat)
    ensures DigitsValue(NatToStr(n)) == n
  {
    var r := NatToStr(n);
    if n >= 10 {
      NatToStrRoundTrip(n / 10);
      assert r[..|r| - 1] == NatToStr(n / 10);
    }
  }

  /** The shape of a text `int()` reads: an optional minus sign, then at least one digit. */
  predicate IsIntText(s: string) {
    |s| > 0 && (if s[0] == '-' then |s| > 1 && IsDigits(s[1..]) else IsDigits(s))
  }

  /** `int(s)` on such a text. */
  function ParseInt(s: string): int
    requires IsIntText(s)
  {
    if s[0] == '-' then -(DigitsValue(s[1..]) as int) else DigitsValue(s)
  }

  /** `str(n)` for an int: a minus sign exactly for a negative number, digits
      with no leading zero (so no "007" and no "-0"), and `int(str(n)) == n`. */
  function IntToStr(n: int): (r: string)
    ensures IsIntText(r) && ParseInt(r) == n
    ensures (r[0] == '-') <==> n < 0
    ensures var digits := if n < 0 then r[1..] else r; digits[0] == '0' ==> n == 0
  {
    NatToStrRoundTrip(if n < 0 then -n else n);
    if n < 0 then
      var digits := NatToStr(-n);
      assert ("-" + digits)[1..] == digits;
      "-" + digits
    else NatToStr(n)
  }

  /** Different ints have different `str()` text. */
  lemma IntToStrInjective(a: int, b: int)
    requires IntToStr(a) == IntToStr(b)
    ensures a == b
  {
  }

  /** `str(v)`: an int's text reads back as that int, a bool is "True" or
      "False", a str is itself, and any other value has its own text. */
  function ToStr(v: PyValue): (r: string)
    ensures v.Int? ==> IsIntText(r) && ParseInt(r) == v.i
    ensures v.Bool? ==> r == (if v.b then "True" else "False")
    ensures v.Str? ==> r == v.s
  {
    match v
    case Int(n) => IntToStr(n)
    case Bool(b) => if b then "True" else "False"
    case Str(s) => s
    case Other(text) => text
  }

  /** Python `v in [s1, s2, ...]` over a list of str literals: only a str equal
      to one of them is a member; ints, bools and the other values never compare
      equal to a str. */
  predicate InStrList(v: PyValue, options: seq<string>) {
    v.Str? && v.s in options
  }
}
