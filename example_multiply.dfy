// The example `multiply` component: multiplication as repeated `+=`.
module ExampleMultiply {
  import opened Wrappers
  import opened Ints
  import opened U32

  /** `multiply`: adds `b` to 0 exactly `a` times; the product modulo 2^32. */
  method Multiply(a: uint32, b: uint32) returns (out: uint32)
    ensures out as int == (a as int * b as int) % U32_MODULUS
    ensures a == 0 ==> out == 0
  {
    out := 0;
    for i := 0 to a as int
      invariant out as int == (i * b as int) % U32_MODULUS
    {
      ModAdd(i * b as int, b as int);
      assert (i + 1) * b as int == i * b as int + b as int;
      out := Wrap(out as int + b as int);
    }
  }

  /** `run`: parse `a`, then `b` (panicking on a missing or invalid one), multiply, and exit with 0. */
  method Run(a: Option<string>, b: Option<string>) returns (o: RunOutcome)
    ensures var args := Args2(a, b, "missing argument 'a'", "invalid argument 'a'", "missing argument 'b'", "invalid argument 'b'");
      o == if args.Ok? then Exited(0) else Panicked(args.error)
  {
    var args := Args2(a, b, "missing argument 'a'", "invalid argument 'a'", "missing argument 'b'", "invalid argument 'b'");
    if args.Err? {
      return Panicked(args.error);
    }
    var _ := Multiply(args.value.0, args.value.1);
    return Exited(0);
  }
}
