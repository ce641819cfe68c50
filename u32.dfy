// 32-bit unsigned arithmetic as the arithmetic extensions compute it
// (wrapping modulo 2^32, as an optimised build does), and the decimal
// parsing their `run` entry points apply to the command-line arguments.
module U32 {
  import opened Wrappers
  import opened Ints

  /** The exact power a^n over the integers. */
  function Pow(a: int, n: nat): int {
    if n == 0 then 1 else Pow(a, n - 1) * a
  }

  lemma PowTwo(a: int)
    ensures Pow(a, 2) == a * a
  {
    assert Pow(a, 1) == a;
  }

  /** `(x + M*k) mod M = x mod M` */
  lemma ModShift(x: int, k: int)
    ensures (x + U32_MODULUS * k) % U32_MODULUS == x % U32_MODULUS
  {
  }

  /** Reducing before an addition does not change the reduced sum. */
  lemma ModAdd(x: int, b: int)
    ensures (x % U32_MODULUS + b) % U32_MODULUS == (x + b) % U32_MODULUS
  {
    ModShift(x % U32_MODULUS + b, x / U32_MODULUS);
  }

  /** Reducing before a multiplication does not change the reduced product. */
  lemma ModMul(x: int, a: int)
    ensures ((x % U32_MODULUS) * a) % U32_MODULUS == (x * a) % U32_MODULUS
  {
    ModShift((x % U32_MODULUS) * a, (x / U32_MODULUS) * a);
    assert x * a == (x % U32_MODULUS) * a + U32_MODULUS * ((x / U32_MODULUS) * a);
  }

  /** `x` reduced to a `u32`, as wrapping arithmetic leaves it. */
  function Wrap(x: int): (r: uint32)
    ensures r as int == x % U32_MODULUS
  {
    (x % U32_MODULUS) as uint32
  }

  /** `run` past its argument parsing: the two parsed arguments, or the first argument's panic message. */
  function Args2(a: Option<string>, b: Option<string>, missingA: string, invalidA: string, missingB: string, invalidB: string)
    : (r: Result<(uint32, uint32), string>)
    ensures Arg(a, missingA, invalidA).Err? ==> r == Err(Arg(a, missingA, invalidA).error)
    ensures Arg(a, missingA, invalidA).Ok? && Arg(b, missingB, invalidB).Err? ==> r == Err(Arg(b, missingB, invalidB).error)
    ensures r.Ok? <==> Arg(a, missingA, invalidA).Ok? && Arg(b, missingB, invalidB).Ok?
    ensures r.Ok? ==> r.value == (Arg(a, missingA, invalidA).value, Arg(b, missingB, invalidB).value)
  {
    match Arg(a, missingA, invalidA)
    case Err(m) => Err(m)
    case Ok(x) =>
      match Arg(b, missingB, invalidB)
      case Err(m) => Err(m)
      case Ok(y) => Ok((x, y))
  }

  // ---------------------------------------------------------------------
  // `str::parse::<u32>`

  predicate IsDigit(c: char) {
    '0' <= c <= '9'
  }

  predicate AllDigits(s: string) {
    forall k :: 0 <= k < |s| ==> IsDigit(s[k])
  }

  /** The value of a string of decimal digits, most significant first. */
  function DigitsValue(s: string): nat
    requires AllDigits(s)
  {
    if |s| == 0 then 0
    else DigitsValue(s[..|s| - 1]) * 10 + (s[|s| - 1] as int - '0' as int)
  }

  /** The digits `parse` reads: the text less one optional leading '+'. */
  function Unsigned(s: string): string {
    if |s| > 0 && s[0] == '+' then s[1..] else s
  }

  /**
   * `s.parse::<u32>()`: the text, less an optional '+', must be a non-empty
   * run of decimal digits whose value is below 2^32.
   */
  function ParseU32(s: string): (r: Option<uint32>)
    ensures r.Some? <==>
      (|Unsigned(s)| > 0 && AllDigits(Unsigned(s)) && DigitsValue(Unsigned(s)) < U32_MODULUS)
    ensures r.Some? ==> r.value as int == DigitsValue(Unsigned(s))
  {
    var d := Unsigned(s);
    if |d| == 0 then None
    else if exists k :: 0 <= k < |d| && !IsDigit(d[k]) then None
    else if DigitsValue(d) >= U32_MODULUS then None
    else Some(DigitsValue(d) as uint32)
  }

  /** `n.to_string()`: decimal digits without leading zeros. */
  function Decimal(n: nat): (s: string)
    ensures |s| > 0 && AllDigits(s)
    ensures DigitsValue(s) == n
    ensures |s| > 1 ==> s[0] != '0'
  {
    var last := ('0' as int + n % 10) as char;
    if n < 10 then [last]
    else
      var front := Decimal(n / 10);
      var s := front + [last];
      assert s[..|s| - 1] == front;
      s
  }

  /** Parsing a printed `u32` gives it back. */
  lemma ParsePrinted(n: uint32)
    ensures ParseU32(Decimal(n as nat)) == Some(n)
  {
    var s := Decimal(n as nat);
    assert Unsigned(s) == s;
  }

  /** A leading '+' is accepted and ignored. */
  lemma ParsePlus(s: string)
    requires |s| > 0 && s[0] != '+'
    ensures ParseU32("+" + s) == ParseU32(s)
  {
    assert ("+" + s)[1..] == s;
  }

  /** How an extension's `run` ends: an exit code, or a panic with its message. */
  datatype RunOutcome = Exited(code: uint8) | Panicked(message: string)

  /**
   * One required argument of a `run`, parsed as `u32`: a missing argument
   * and an unparsable one each panic with their own message.
   */
  function Arg(arg: Option<string>, missing: string, invalid: string): (r: Result<uint32, string>)
    ensures arg.None? ==> r == Err(missing)
    ensures arg.Some? && ParseU32(arg.value).None? ==> r == Err(invalid)
    ensures r.Ok? <==> arg.Some? && ParseU32(arg.value).Some?
    ensures r.Ok? ==> r.value == ParseU32(arg.value).value
  {
    match arg
    case None => Err(missing)
    case Some(text) =>
      match ParseU32(text)
      case None => Err(invalid)
      case Some(n) => Ok(n)
  }

  /** The message of a panicking `unwrap` on a missing argument. */
  const UNWRAP_NONE: string := "called `Option::unwrap()` on a `None` value"
  /** The message of a panicking `unwrap` on a failed parse. */
  const UNWRAP_ERR: string := "called `Result::unwrap()` on an `Err` value"
}
