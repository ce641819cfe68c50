// The `add` extension: the library function other extensions import.
module AddExtension {
  import opened Wrappers
  import opened Ints
  import opened U32

  /** `add`: the sum modulo 2^32, which is the exact sum whenever that fits in a `u32`. */
  function Add(a: uint32, b: uint32): (r: uint32)
    ensures r as int == (a as int + b as int) % U32_MODULUS
    ensures a as int + b as int < U32_MODULUS ==> r as int == a as int + b as int
  {
    if a as int + b as int < U32_MODULUS then a + b
    else (a as int + b as int - U32_MODULUS) as uint32
  }

  /** Adding 0 changes nothing, and the order of the operands does not matter. */
  lemma AddLaws(a: uint32, b: uint32)
    ensures Add(a, 0) == a
    ensures Add(a, b) == Add(b, a)
  {
  }

  /** `run`: parse `a`, then `b` with `unwrap` (panicking on a missing or invalid one), add, and exit with 0. */
  function Run(a: Option<string>, b: Option<string>): (o: RunOutcome)
    ensures var args := Args2(a, b, UNWRAP_NONE, UNWRAP_ERR, UNWRAP_NONE, UNWRAP_ERR);
      o == if args.Ok? then Exited(0) else Panicked(args.error)
  {
    match Args2(a, b, UNWRAP_NONE, UNWRAP_ERR, UNWRAP_NONE, UNWRAP_ERR)
    case Err(m) => Panicked(m)
    case Ok(_) => Exited(0)
  }
}
