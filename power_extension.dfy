// The `power` extension: exponentiation as repeated calls to the imported
// `multiply`.
module PowerExtension {
  import opened Wrappers
  import opened Ints
  import opened U32
  import MultiplyExtension

  /**
   * `power`: starts from 1 and replaces `out` by `multiply(out, a)` exactly
   * `b` times (`multiplyCalls`); a^b modulo 2^32, so 1 when `b` is 0.
   */
  method Power(a: uint32, b: uint32) returns (out: uint32, ghost multiplyCalls: nat)
    ensures out as int == Pow(a as int, b as nat) % U32_MODULUS
    ensures b == 0 ==> out == 1
    ensures multiplyCalls == b as nat
  {
    out := 1;
    multiplyCalls := 0;
    for i := 0 to b as int
      invariant out as int == Pow(a as int, i) % U32_MODULUS
      invariant multiplyCalls == i
    {
      ModMul(Pow(a as int, i), a as int);
      var product, _ := MultiplyExtension.Multiply(out, a);
      out := product;
      multiplyCalls := multiplyCalls + 1;
    }
  }

  /** `run`: parse `a`, then `b` with `unwrap`, raise, and exit with 0. */
  method Run(a: Option<string>, b: Option<string>) returns (o: RunOutcome)
    ensures var args := Args2(a, b, UNWRAP_NONE, UNWRAP_ERR, UNWRAP_NONE, UNWRAP_ERR);
      o == if args.Ok? then Exited(0) else Panicked(args.error)
  {
    var args := Args2(a, b, UNWRAP_NONE, UNWRAP_ERR, UNWRAP_NONE, UNWRAP_ERR);
    if args.Err? {
      return Panicked(args.error);
    }
    var _, _ := Power(args.value.0, args.value.1);
    return Exited(0);
  }
}
