// The `square` extension: despite its name a power function, starting
// from `a` and multiplying by `a` once for each of 1..b; its `run` fixes
// the exponent at 2.
module SquareExtension {
  import opened Wrappers
  import opened Ints
  import opened U32
  import MultiplyExtension

  /** The exponent `run` uses in place of a parsed `b`. */
  const RUN_EXPONENT: uint32 := 2

  /**
   * `square`: a^b modulo 2^32 for b >= 1, but `a` itself for b = 0 since
   * the range 1..0 is empty; `multiply` is called b - 1 times (none for b = 0).
   */
  method Square(a: uint32, b: uint32) returns (out: uint32, ghost multiplyCalls: nat)
    ensures b >= 1 ==> out as int == Pow(a as int, b as nat) % U32_MODULUS
    ensures b == 0 ==> out == a
    ensures b == RUN_EXPONENT ==> out as int == (a as int * a as int) % U32_MODULUS
    ensures multiplyCalls == if b == 0 then 0 else b as nat - 1
  {
    out := a;
    multiplyCalls := 0;
    var i := 1;
    while i < b as int
      invariant 1 <= i <= (if b == 0 then 1 else b as int)
      invariant out as int == Pow(a as int, i) % U32_MODULUS
      invariant multiplyCalls == i - 1
    {
      ModMul(Pow(a as int, i), a as int);
      assert Pow(a as int, i + 1) == Pow(a as int, i) * a as int;
      var product, _ := MultiplyExtension.Multiply(out, a);
      out := product;
      multiplyCalls := multiplyCalls + 1;
      i := i + 1;
    }
    if b == 0 {
      assert Pow(a as int, 1) == a as int;
    } else if b == RUN_EXPONENT {
      PowTwo(a as int);
    }
  }

  /** `run`: parse `a` (panicking on a missing or invalid one), square it, and exit with 0; no `b` is read. */
  method Run(a: Option<string>) returns (o: RunOutcome)
    ensures var arg := Arg(a, "missing argument 'a'", "invalid argument 'a'");
      o == if arg.Ok? then Exited(0) else Panicked(arg.error)
  {
    var arg := Arg(a, "missing argument 'a'", "invalid argument 'a'");
    if arg.Err? {
      return Panicked(arg.error);
    }
    var _, _ := Square(arg.value, RUN_EXPONENT);
    return Exited(0);
  }
}
