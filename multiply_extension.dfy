// The `multiply` extension: multiplication as repeated calls to the
// imported `add`.
module MultiplyExtension {
  import opened Wrappers
  import opened Ints
  import opened U32
  import AddExtension

  /**
   * `multiply`: starts from 0 and replaces `out` by `add(out, b)` exactly
   * `a` times (`addCalls`); the product modulo 2^32.
   */
  method Multiply(a: uint32, b: uint32) returns (out: uint32, ghost addCalls: nat)
    ensures out as int == (a as int * b as int) % U32_MODULUS
    ensures a == 0 ==> out == 0
    ensures addCalls == a as nat
  {
    out := 0;
    addCalls := 0;
    for i := 0 to a as int
      invariant out as int == (i * b as int) % U32_MODULUS
      invariant addCalls == i
    {
      ModAdd(i * b as int, b as int);
      assert (i + 1) * b as int == i * b as int + b as int;
      out := AddExtension.Add(out, b);
      addCalls := addCalls + 1;
    }
  }

  /** `run`: parse `a`, then `b` with `unwrap`, multiply, and exit with 0. */
  method Run(a: Option<string>, b: Option<string>) returns (o: RunOutcome)
    ensures var args := Args2(a, b, UNWRAP_NONE, UNWRAP_ERR, UNWRAP_NONE, UNWRAP_ERR);
      o == if args.Ok? then Exited(0) else Panicked(args.error)
  {
    var args := Args2(a, b, UNWRAP_NONE, UNWRAP_ERR, UNWRAP_NONE, UNWRAP_ERR);
    if args.Err? {
      return Panicked(args.error);
    }
    var _, _ := Multiply(args.value.0, args.value.1);
    return Exited(0);
  }
}
